/** Severity of license expressions (pkg/licensing/scanner.go). */
module License {
  import opened Levels

  datatype Category =
    | Forbidden | Restricted | Reciprocal | Notice | Permissive | Unencumbered
    | Unknown
    | Custom(name: string)

  function Severity(c: Category): nat {
    match c
    case Forbidden => 4
    case Restricted => 3
    case Reciprocal => 2
    case Notice => 1
    case Permissive => 1
    case Unencumbered => 1
    case _ => 0
  }

  /** A parsed expression. A leaf is a simple license or a `WITH` expression, given by
      the lower-case names under which it may be configured. */
  datatype Expr = Leaf(names: set<string>) | And(left: Expr, right: Expr) | Or(left: Expr, right: Expr)

  /** The configured names of each category, in lower case. */
  type Categories = map<Category, set<string>>

  ghost function Matches(cats: Categories, names: set<string>): set<Category> {
    set c | c in cats && cats[c] * names != {}
  }

  /** The possible results of `licenseToCategory`, which stops at the first match in the
      random iteration order of the map. */
  ghost predicate MayBe(cats: Categories, names: set<string>, c: Category) {
    if Matches(cats, names) == {} then c == Unknown else c in Matches(cats, names)
  }

  /** An expression with the category that each leaf occurrence was given. */
  datatype Labelled = One(category: Category) | Both(left: Labelled, right: Labelled) | Either(left: Labelled, right: Labelled)

  ghost predicate Labels(cats: Categories, e: Expr, t: Labelled) {
    match e
    case Leaf(names) => t.One? && MayBe(cats, names, t.category)
    case And(l, r) => t.Both? && Labels(cats, l, t.left) && Labels(cats, r, t.right)
    case Or(l, r) => t.Either? && Labels(cats, l, t.left) && Labels(cats, r, t.right)
  }

  /** `lo.MaxBy` over the two sides: the right one wins only if it is strictly better. */
  function Better(left: Category, right: Category, and: bool): Category {
    if and
    then if Severity(right) > Severity(left) then right else left
    else if Severity(right) < Severity(left) then right else left
  }

  /** `detectCategory` after the leaves have been looked up. */
  function Detect(t: Labelled): Category {
    match t
    case One(c) => c
    case _ =>
      var left, right := Detect(t.left), Detect(t.right);
      if left == Unknown || right == Unknown then Unknown else Better(left, right, t.Both?)
  }

  // ---------------------------------------------------------------------------
  // What the result means

  ghost predicate HasUnknown(t: Labelled) {
    match t
    case One(c) => c == Unknown
    case _ => HasUnknown(t.left) || HasUnknown(t.right)
  }

  /** One way to satisfy an expression: a side for every `OR` on the way down. */
  datatype Choice = Here | All(left: Choice, right: Choice) | Left(only: Choice) | Right(only: Choice)

  ghost predicate Fits(t: Labelled, c: Choice) {
    match t
    case One(_) => c.Here?
    case Both(l, r) => c.All? && Fits(l, c.left) && Fits(r, c.right)
    case Either(l, r) => (c.Left? && Fits(l, c.only)) || (c.Right? && Fits(r, c.only))
  }

  /** The leaves that a choice takes on. */
  ghost function Taken(t: Labelled, c: Choice): seq<Category>
    requires Fits(t, c)
  {
    match t
    case One(category) => [category]
    case Both(l, r) => Taken(l, c.left) + Taken(r, c.right)
    case Either(l, r) => if c.Left? then Taken(l, c.only) else Taken(r, c.only)
  }

  ghost function Worst(cs: seq<Category>): nat {
    if cs == [] then 0
    else
      var rest := Worst(cs[1..]);
      if Severity(cs[0]) > rest then Severity(cs[0]) else rest
  }

  lemma {:induction false} WorstConcat(a: seq<Category>, b: seq<Category>)
    ensures Worst(a + b) == if Worst(a) > Worst(b) then Worst(a) else Worst(b)
  {
    if a == [] {
      assert a + b == b;
    } else {
      WorstConcat(a[1..], b);
      assert (a + b)[1..] == a[1..] + b;
    }
  }

  /** The category is unknown exactly when some leaf is. */
  lemma {:induction false} UnknownIff(t: Labelled)
    ensures Detect(t) == Unknown <==> HasUnknown(t)
  {
    if !t.One? {
      UnknownIff(t.left);
      UnknownIff(t.right);
    }
  }

  /** No way to satisfy the expression is cheaper than the severity detected. */
  lemma {:induction false} NoChoiceCheaper(t: Labelled, c: Choice)
    requires !HasUnknown(t) && Fits(t, c)
    ensures Worst(Taken(t, c)) >= Severity(Detect(t))
  {
    UnknownIff(t);
    match t
    case One(_) =>
    case Both(l, r) =>
      UnknownIff(l);
      UnknownIff(r);
      NoChoiceCheaper(l, c.left);
      NoChoiceCheaper(r, c.right);
      WorstConcat(Taken(l, c.left), Taken(r, c.right));
    case Either(l, r) =>
      UnknownIff(l);
      UnknownIff(r);
      if c.Left? {
        NoChoiceCheaper(l, c.only);
      } else {
        NoChoiceCheaper(r, c.only);
      }
  }

  /** Some way to satisfy the expression has exactly the severity detected. */
  lemma {:induction false} SomeChoiceExact(t: Labelled) returns (c: Choice)
    requires !HasUnknown(t)
    ensures Fits(t, c) && Worst(Taken(t, c)) == Severity(Detect(t))
  {
    match t
    case One(category) =>
      c := Here;
      assert [category][1..] == [];
    case Both(l, r) =>
      UnknownIff(l);
      UnknownIff(r);
      var cl := SomeChoiceExact(l);
      var cr := SomeChoiceExact(r);
      c := All(cl, cr);
      WorstConcat(Taken(l, cl), Taken(r, cr));
    case Either(l, r) =>
      UnknownIff(l);
      UnknownIff(r);
      if Severity(Detect(r)) < Severity(Detect(l)) {
        var cr := SomeChoiceExact(r);
        c := Right(cr);
      } else {
        var cl := SomeChoiceExact(l);
        c := Left(cl);
      }
  }

  /** The severity is unknown if any leaf is unknown; otherwise it is the minimum, over all
      ways of resolving each `OR` to one side, of the maximum over the leaves taken. */
  lemma SeverityIsMinMax(t: Labelled)
    ensures HasUnknown(t) ==> Severity(Detect(t)) == 0
    ensures !HasUnknown(t) ==> exists c :: Fits(t, c) && Worst(Taken(t, c)) == Severity(Detect(t))
    ensures !HasUnknown(t) ==> forall c :: Fits(t, c) ==> Worst(Taken(t, c)) >= Severity(Detect(t))
  {
    UnknownIff(t);
    if !HasUnknown(t) {
      var c := SomeChoiceExact(t);
      forall c | Fits(t, c) ensures Worst(Taken(t, c)) >= Severity(Detect(t)) {
        NoChoiceCheaper(t, c);
      }
    }
  }

  // ---------------------------------------------------------------------------
  // Independence of the iteration order

  ghost predicate AtMostOneMatch(cats: Categories, e: Expr) {
    match e
    case Leaf(names) => forall c, d :: c in Matches(cats, names) && d in Matches(cats, names) ==> c == d
    case _ => AtMostOneMatch(cats, e.left) && AtMostOneMatch(cats, e.right)
  }

  ghost predicate Determined(cats: Categories, e: Expr) {
    forall t, u :: Labels(cats, e, t) && Labels(cats, e, u) ==> t == u
  }

  lemma {:induction false} SomeLabels(cats: Categories, e: Expr) returns (t: Labelled)
    ensures Labels(cats, e, t)
  {
    match e
    case Leaf(names) =>
      if Matches(cats, names) == {} {
        t := One(Unknown);
      } else {
        var c :| c in Matches(cats, names);
        t := One(c);
      }
    case And(l, r) =>
      var tl := SomeLabels(cats, l);
      var tr := SomeLabels(cats, r);
      t := Both(tl, tr);
    case Or(l, r) =>
      var tl := SomeLabels(cats, l);
      var tr := SomeLabels(cats, r);
      t := Either(tl, tr);
  }

  lemma {:induction false} SameLabels(cats: Categories, e: Expr, t: Labelled, u: Labelled)
    requires AtMostOneMatch(cats, e) && Labels(cats, e, t) && Labels(cats, e, u)
    ensures t == u
  {
    if !e.Leaf? {
      SameLabels(cats, e.left, t.left, u.left);
      SameLabels(cats, e.right, t.right, u.right);
    }
  }

  lemma {:induction false} TwoLabels(cats: Categories, e: Expr) returns (t: Labelled, u: Labelled)
    requires !AtMostOneMatch(cats, e)
    ensures Labels(cats, e, t) && Labels(cats, e, u) && t != u
  {
    match e
    case Leaf(names) =>
      var c, d :| c in Matches(cats, names) && d in Matches(cats, names) && c != d;
      t, u := One(c), One(d);
    case _ =>
      var a, b, x, y;
      if !AtMostOneMatch(cats, e.left) {
        a, b := TwoLabels(cats, e.left);
        x := SomeLabels(cats, e.right);
        y := x;
      } else {
        x, y := TwoLabels(cats, e.right);
        a := SomeLabels(cats, e.left);
        b := a;
      }
      if e.And? {
        t, u := Both(a, x), Both(b, y);
      } else {
        t, u := Either(a, x), Either(b, y);
      }
  }

  /** The leaves are looked up the same way in every run exactly when no leaf matches two
      categories. */
  lemma {:induction false} LookupDeterminedIff(cats: Categories, e: Expr)
    ensures Determined(cats, e) <==> AtMostOneMatch(cats, e)
  {
    if AtMostOneMatch(cats, e) {
      forall t, u | Labels(cats, e, t) && Labels(cats, e, u) ensures t == u {
        SameLabels(cats, e, t, u);
      }
    } else {
      var t, u := TwoLabels(cats, e);
    }
  }

  // ---------------------------------------------------------------------------
  // Independence of the severity

  /** Categories by their effect: unknown below everything else, then by severity. */
  function Rank(c: Category): (r: nat)
    ensures r <= 5 && Severity(c) == RankSeverity(r)
  {
    if c == Unknown then 0 else 1 + Severity(c)
  }

  function RankSeverity(rank: nat): nat {
    if rank == 0 then 0 else rank - 1
  }

  /** What `AND` and `OR` do to ranks. */
  function Combine(left: nat, right: nat, and: bool): nat {
    if left == 0 || right == 0 then 0
    else if and then (if left > right then left else right)
    else if left < right then left else right
  }

  lemma DetectRank(t: Labelled)
    requires !t.One?
    ensures Rank(Detect(t)) == Combine(Rank(Detect(t.left)), Rank(Detect(t.right)), t.Both?)
  {
  }

  ghost predicate Attains(cats: Categories, names: set<string>, rank: nat) {
    exists c :: MayBe(cats, names, c) && Rank(c) == rank
  }

  /** The lowest attained rank from `k` on, and the highest up to `k`. */
  ghost function LowestFrom(cats: Categories, names: set<string>, k: nat): nat
    decreases 5 - k
  {
    if k >= 5 || Attains(cats, names, k) then k else LowestFrom(cats, names, k + 1)
  }

  ghost function HighestUpTo(cats: Categories, names: set<string>, k: nat): nat {
    if k == 0 || Attains(cats, names, k) then k else HighestUpTo(cats, names, k - 1)
  }

  /** The rank of the expression when every leaf is matched as low, or as high, as it can be. */
  ghost function Lowest(cats: Categories, e: Expr): nat {
    match e
    case Leaf(names) => LowestFrom(cats, names, 0)
    case _ => Combine(Lowest(cats, e.left), Lowest(cats, e.right), e.And?)
  }

  ghost function Highest(cats: Categories, e: Expr): nat {
    match e
    case Leaf(names) => HighestUpTo(cats, names, 5)
    case _ => Combine(Highest(cats, e.left), Highest(cats, e.right), e.And?)
  }

  lemma {:induction false} LowestFromLeast(cats: Categories, names: set<string>, k: nat, c: Category)
    requires k <= Rank(c) && MayBe(cats, names, c)
    ensures k <= LowestFrom(cats, names, k) <= Rank(c) && Attains(cats, names, LowestFrom(cats, names, k))
    decreases 5 - k
  {
    assert Attains(cats, names, Rank(c));
    if k < 5 && !Attains(cats, names, k) {
      LowestFromLeast(cats, names, k + 1, c);
    }
  }

  lemma {:induction false} HighestUpToGreatest(cats: Categories, names: set<string>, k: nat, c: Category)
    requires Rank(c) <= k && MayBe(cats, names, c)
    ensures Rank(c) <= HighestUpTo(cats, names, k) <= k && Attains(cats, names, HighestUpTo(cats, names, k))
  {
    assert Attains(cats, names, Rank(c));
    if k > 0 && !Attains(cats, names, k) {
      HighestUpToGreatest(cats, names, k - 1, c);
    }
  }

  lemma CombineMonotone(a: nat, b: nat, c: nat, d: nat, and: bool)
    requires a <= c && b <= d
    ensures Combine(a, b, and) <= Combine(c, d, and)
  {
  }

  /** Every lookup of the leaves gives a rank between the two extremes. */
  lemma {:induction false} BetweenExtremes(cats: Categories, e: Expr, t: Labelled)
    requires Labels(cats, e, t)
    ensures Lowest(cats, e) <= Rank(Detect(t)) <= Highest(cats, e)
  {
    match e
    case Leaf(names) =>
      LowestFromLeast(cats, names, 0, t.category);
      HighestUpToGreatest(cats, names, 5, t.category);
    case _ =>
      BetweenExtremes(cats, e.left, t.left);
      BetweenExtremes(cats, e.right, t.right);
      DetectRank(t);
      var l, r := Rank(Detect(t.left)), Rank(Detect(t.right));
      CombineMonotone(Lowest(cats, e.left), Lowest(cats, e.right), l, r, e.And?);
      CombineMonotone(l, r, Highest(cats, e.left), Highest(cats, e.right), e.And?);
  }

  /** Both extremes occur. */
  lemma {:induction false} ExtremeOccurs(cats: Categories, e: Expr, high: bool) returns (t: Labelled)
    ensures Labels(cats, e, t) && Rank(Detect(t)) == if high then Highest(cats, e) else Lowest(cats, e)
  {
    match e
    case Leaf(names) =>
      var some := SomeLabels(cats, e);
      LowestFromLeast(cats, names, 0, some.category);
      HighestUpToGreatest(cats, names, 5, some.category);
      var c :| MayBe(cats, names, c) && Rank(c) == if high then Highest(cats, e) else Lowest(cats, e);
      t := One(c);
    case _ =>
      var l := ExtremeOccurs(cats, e.left, high);
      var r := ExtremeOccurs(cats, e.right, high);
      t := if e.And? then Both(l, r) else Either(l, r);
      DetectRank(t);
  }

  ghost predicate SeverityDetermined(cats: Categories, e: Expr) {
    forall t, u :: Labels(cats, e, t) && Labels(cats, e, u) ==> Severity(Detect(t)) == Severity(Detect(u))
  }

  /** The severity reported is the same in every run exactly when matching every leaf as
      low as possible and as high as possible gives the same severity. A leaf may well
      match two categories. */
  lemma SeverityDeterminedIff(cats: Categories, e: Expr)
    ensures SeverityDetermined(cats, e) <==> RankSeverity(Lowest(cats, e)) == RankSeverity(Highest(cats, e))
  {
    var lo := ExtremeOccurs(cats, e, false);
    var hi := ExtremeOccurs(cats, e, true);
    forall t, u | RankSeverity(Lowest(cats, e)) == RankSeverity(Highest(cats, e)) && Labels(cats, e, t) && Labels(cats, e, u)
      ensures Severity(Detect(t)) == Severity(Detect(u))
    {
      BetweenExtremes(cats, e, t);
      BetweenExtremes(cats, e, u);
    }
  }

  // ---------------------------------------------------------------------------
  // By the names of the levels

  /** Every way of resolving each `OR` takes on a leaf of one of the categories. */
  ghost predicate Unavoidable(t: Labelled, cs: set<Category>) {
    forall c :: Fits(t, c) ==> exists i :: 0 <= i < |Taken(t, c)| && Taken(t, c)[i] in cs
  }

  lemma {:induction false} WorstAtLeast(cs: seq<Category>, k: nat)
    requires k > 0
    ensures Worst(cs) >= k <==> exists i :: 0 <= i < |cs| && Severity(cs[i]) >= k
  {
    if cs != [] {
      WorstAtLeast(cs[1..], k);
      if i :| 0 < i < |cs| && Severity(cs[i]) >= k {
        assert cs[1..][i - 1] == cs[i];
      }
    }
  }

  /** The severity is at least `k` exactly when no way around the categories of that
      severity exists. */
  lemma AtLeastIff(t: Labelled, cs: set<Category>, k: nat)
    requires !HasUnknown(t) && k > 0 && forall c :: c in cs <==> Severity(c) >= k
    ensures Severity(Detect(t)) >= k <==> Unavoidable(t, cs)
  {
    SeverityIsMinMax(t);
    if Severity(Detect(t)) >= k {
      forall c | Fits(t, c) ensures exists i :: 0 <= i < |Taken(t, c)| && Taken(t, c)[i] in cs {
        WorstAtLeast(Taken(t, c), k);
      }
    } else {
      var c :| Fits(t, c) && Worst(Taken(t, c)) == Severity(Detect(t));
      WorstAtLeast(Taken(t, c), k);
    }
  }

  /** The name of the severity, as it is reported. */
  function SeverityName(t: Labelled): string {
    Name(Severity(Detect(t)) as Level)
  }

  /** Without unknown leaves: critical exactly when a forbidden license cannot be avoided, at
      least high when a forbidden or restricted one cannot, at least medium with the
      reciprocal ones, and at least low with notice, permissive and unencumbered ones. */
  lemma LevelsExactly(t: Labelled)
    requires !HasUnknown(t)
    ensures SeverityName(t) == "CRITICAL" <==> Unavoidable(t, {Forbidden})
    ensures SeverityName(t) in ["CRITICAL", "HIGH"] <==> Unavoidable(t, {Forbidden, Restricted})
    ensures SeverityName(t) in ["CRITICAL", "HIGH", "MEDIUM"] <==> Unavoidable(t, {Forbidden, Restricted, Reciprocal})
    ensures SeverityName(t) in ["CRITICAL", "HIGH", "MEDIUM", "LOW"] <==>
            Unavoidable(t, {Forbidden, Restricted, Reciprocal, Notice, Permissive, Unencumbered})
    ensures SeverityName(t) in ["CRITICAL", "HIGH", "MEDIUM", "LOW", "UNKNOWN"]
  {
    AtLeastByCategory(t);
    NamesByLevel(Severity(Detect(t)) as Level);
  }

  lemma AtLeastByCategory(t: Labelled)
    requires !HasUnknown(t)
    ensures Severity(Detect(t)) >= 4 <==> Unavoidable(t, {Forbidden})
    ensures Severity(Detect(t)) >= 3 <==> Unavoidable(t, {Forbidden, Restricted})
    ensures Severity(Detect(t)) >= 2 <==> Unavoidable(t, {Forbidden, Restricted, Reciprocal})
    ensures Severity(Detect(t)) >= 1 <==>
            Unavoidable(t, {Forbidden, Restricted, Reciprocal, Notice, Permissive, Unencumbered})
  {
    AtLeastIff(t, {Forbidden}, 4);
    AtLeastIff(t, {Forbidden, Restricted}, 3);
    AtLeastIff(t, {Forbidden, Restricted, Reciprocal}, 2);
    AtLeastIff(t, {Forbidden, Restricted, Reciprocal, Notice, Permissive, Unencumbered}, 1);
  }

  lemma NamesByLevel(level: Level)
    ensures Name(level) == "CRITICAL" <==> level >= 4
    ensures Name(level) in ["CRITICAL", "HIGH"] <==> level >= 3
    ensures Name(level) in ["CRITICAL", "HIGH", "MEDIUM"] <==> level >= 2
    ensures Name(level) in ["CRITICAL", "HIGH", "MEDIUM", "LOW"] <==> level >= 1
    ensures Name(level) in ["CRITICAL", "HIGH", "MEDIUM", "LOW", "UNKNOWN"]
  {
    LevelNames("");
    assert |"UNKNOWN"| == 7 && |"LOW"| == 3 && |"MEDIUM"| == 6 && |"HIGH"| == 4 && |"CRITICAL"| == 8;
  }

  /** An expression with an unknown leaf is reported as unknown. */
  lemma UnknownReported(t: Labelled)
    requires HasUnknown(t)
    ensures SeverityName(t) == "UNKNOWN"
  {
    UnknownIff(t);
    LevelNames("");
  }

  /** The lookup of a leaf gives a category that is configured with one of its names, or
      unknown if there is none. */
  lemma LookupExactly(cats: Categories, names: set<string>, c: Category)
    ensures MayBe(cats, names, c) <==>
            || (c in cats && exists n :: n in cats[c] && n in names)
            || (c == Unknown && forall x, n :: x in cats && n in cats[x] ==> n !in names)
  {
    forall x | x in cats ensures cats[x] * names != {} <==> exists n :: n in cats[x] && n in names {
      if n :| n in cats[x] && n in names {
        assert n in cats[x] * names;
      }
      if cats[x] * names != {} {
        var n :| n in cats[x] * names;
      }
    }
    if Matches(cats, names) != {} {
      var x :| x in Matches(cats, names);
    }
    if x :| x in cats && cats[x] * names != {} {
      assert x in Matches(cats, names);
    }
  }
}
