/** The in-memory filesystem of pkg/mapfs as a value: a tree of nodes, the operations of
    `file` on it, and the flat path map that the tree stands for.

    A path is the list of its parts, as `strings.Split(cleanPath(name), "/")` gives it. */
module MapTree {
  import opened Options
  import opened Bytes

  datatype Mode = Mode(dir: bool, perm: nat, other: nat)

  /** What a node stores besides its children: the underlying path of a real file, or
      the data of a virtual one, and the mode. */
  datatype Info = Info(underlying: string, data: seq<Byte>, mode: Mode)

  datatype Tree = Node(info: Info, files: map<string, Tree>)

  datatype Error = NotExist | Exist | Invalid | BadArgument

  type Path = seq<string>

  predicate IsDir(t: Tree) {
    t.info.mode.dir
  }

  /** The names that `file` takes for the node itself. */
  predicate Self(p: Path) {
    p == [""] || p == ["."]
  }

  predicate Proper(p: Path) {
    p != [] && forall i :: 0 <= i < |p| ==> p[i] != "" && p[i] != "."
  }

  /** The shape of a cleaned and split path. */
  predicate Clean(p: Path) {
    Self(p) || Proper(p)
  }

  lemma ProperTail(p: Path)
    requires Proper(p)
    ensures !Self(p) && (|p| > 1 ==> Proper(p[1..]) && !Self(p[1..]))
  {
    assert p[0] != "" && p[0] != ".";
    assert |p| > 1 ==> p[1..][0] == p[1];
  }

  function DirInfo(perm: Mode): Info {
    Info("", [], perm.(dir := true))
  }

  const ROOT_INFO := DirInfo(Mode(true, 0x1c0, 0))

  function Root(): Tree {
    Node(ROOT_INFO, map[])
  }

  // ---------------------------------------------------------------------------
  // The operations, following the recursion of the source

  function GetFile(t: Tree, p: Path): Option<Tree>
    requires p != []
    decreases |p|
  {
    if Self(p) then Some(t)
    else if p[0] !in t.files then None
    else if |p| == 1 then Some(t.files[p[0]])
    else if !IsDir(t.files[p[0]]) then None
    else GetFile(t.files[p[0]], p[1..])
  }

  /** `file.MkdirAll`: the new tree and the error, if any. */
  function MkdirAll(t: Tree, p: Path, perm: Mode): (Tree, Option<Error>)
    requires p != []
    decreases |p|
  {
    if Self(p) then (t, None)
    else
      var sub := if p[0] in t.files then t.files[p[0]] else Node(DirInfo(perm), map[]);
      if !IsDir(sub) then (t, Some(Exist))
      else if |p| == 1 then (Put(t, p[0], sub), None)
      else
        var (sub', error) := MkdirAll(sub, p[1..], perm);
        (Put(t, p[0], sub'), error)
  }

  function Put(t: Tree, name: string, sub: Tree): Tree {
    t.(files := t.files[name := sub])
  }

  /** `file.WriteFile` and `file.WriteVirtualFile`: both store a fresh node. */
  function Store(t: Tree, p: Path, info: Info): (Tree, Option<Error>)
    requires p != []
    decreases |p|
  {
    if |p| == 1 then (Put(t, p[0], Node(info, map[])), None)
    else if p[0] !in t.files || !IsDir(t.files[p[0]]) then (t, Some(NotExist))
    else
      var (sub', error) := Store(t.files[p[0]], p[1..], info);
      (Put(t, p[0], sub'), error)
  }

  /** `file.removePath`. */
  function RemovePath(t: Tree, p: Path, recursive: bool): (Tree, Option<Error>)
    requires p != []
    decreases |p|
  {
    if p[0] !in t.files then (t, Some(NotExist))
    else if |p| == 1 then
      if t.files[p[0]].files != map[] && !recursive then (t, Some(Invalid))
      else (t.(files := t.files - {p[0]}), None)
    else if !IsDir(t.files[p[0]]) then (t, Some(NotExist))
    else
      var (sub', error) := RemovePath(t.files[p[0]], p[1..], recursive);
      (Put(t, p[0], sub'), error)
  }

  /** The entry points of `FS`. */
  datatype Op =
    | Mkdir(path: Path, perm: Mode)
    | WriteFile(path: Path, underlying: string)
    | WriteVirtual(path: Path, data: seq<Byte>, mode: Mode)
    | Remove(path: Path, recursive: bool)

  function Step(t: Tree, op: Op): (Tree, Option<Error>)
    requires op.path != []
  {
    match op
    case Mkdir(p, perm) => MkdirAll(t, p, perm)
    case WriteFile(p, underlying) =>
      if underlying == "" then (t, Some(BadArgument)) else Store(t, p, Info(underlying, [], Mode(false, 0, 0)))
    case WriteVirtual(p, data, mode) =>
      if mode.dir then (t, Some(BadArgument)) else Store(t, p, Info("", data, mode))
    case Remove(p, recursive) =>
      if Self(p) then (t, None) else RemovePath(t, p, recursive)
  }

  // ---------------------------------------------------------------------------
  // The flat view

  function Lookup(t: Tree, p: Path): Option<Info>
    decreases |p|
  {
    if p == [] then Some(t.info)
    else if p[0] in t.files then Lookup(t.files[p[0]], p[1..])
    else None
  }

  type FlatMap = imap<Path, Info>

  ghost function Flat(t: Tree): FlatMap {
    imap p: Path | Lookup(t, p).Some? :: Lookup(t, p).value
  }

  /** Only directories have children. */
  ghost predicate WellFormed(t: Tree) {
    (!IsDir(t) ==> t.files == map[]) && forall n :: n in t.files ==> WellFormed(t.files[n])
  }

  /** Every proper prefix of a path is a directory. */
  ghost predicate PrefixClosed(m: FlatMap) {
    [] in m && forall q, k :: q in m && 0 <= k < |q| ==> q[..k] in m && m[q[..k]].mode.dir
  }

  ghost predicate FileOnTheWay(m: FlatMap, p: Path) {
    exists k :: 0 < k <= |p| && p[..k] in m && !m[p[..k]].mode.dir
  }

  ghost function FlatMkdir(m: FlatMap, p: Path, perm: Mode): (FlatMap, Option<Error>) {
    if FileOnTheWay(m, p) then (m, Some(Exist))
    else (imap q: Path | q in m || (q != [] && q <= p) :: if q in m then m[q] else DirInfo(perm), None)
  }

  ghost function FlatStore(m: FlatMap, p: Path, info: Info): (FlatMap, Option<Error>)
    requires p != []
  {
    var parent := p[..|p| - 1];
    if parent in m && m[parent].mode.dir
    then (imap q: Path | q == p || (q in m && !(p <= q)) :: if q == p then info else m[q], None)
    else (m, Some(NotExist))
  }

  ghost function FlatRemove(m: FlatMap, p: Path, recursive: bool): (FlatMap, Option<Error>) {
    if p !in m then (m, Some(NotExist))
    else if !recursive && exists q :: q in m && p < q then (m, Some(Invalid))
    else (imap q: Path | q in m && !(p <= q) :: m[q], None)
  }

  ghost function FlatStep(m: FlatMap, op: Op): (FlatMap, Option<Error>)
    requires op.path != []
  {
    match op
    case Mkdir(p, perm) => if Self(p) then (m, None) else FlatMkdir(m, p, perm)
    case WriteFile(p, underlying) =>
      if underlying == "" then (m, Some(BadArgument)) else FlatStore(m, p, Info(underlying, [], Mode(false, 0, 0)))
    case WriteVirtual(p, data, mode) =>
      if mode.dir then (m, Some(BadArgument)) else FlatStore(m, p, Info("", data, mode))
    case Remove(p, recursive) =>
      if Self(p) then (m, None) else FlatRemove(m, p, recursive)
  }

  // ---------------------------------------------------------------------------
  // Lookups after an operation

  /** Slicing facts about a path and its tail. */
  lemma TailPrefix(p: Path, q: Path)
    requires p != [] && q != []
    ensures p <= q <==> p[0] == q[0] && p[1..] <= q[1..]
    ensures p == q <==> p[0] == q[0] && p[1..] == q[1..]
    ensures p < q <==> p[0] == q[0] && p[1..] < q[1..]
  {
    assert p == [p[0]] + p[1..] && q == [q[0]] + q[1..];
    if p[0] == q[0] && p[1..] <= q[1..] {
      assert forall i :: 0 <= i < |p| ==> p[i] == if i == 0 then p[0] else p[1..][i - 1];
      assert forall i :: 0 <= i < |q| ==> q[i] == if i == 0 then q[0] else q[1..][i - 1];
    }
  }

  lemma {:induction false} NewDirs(p: Path, perm: Mode, q: Path)
    requires Proper(p)
    ensures MkdirAll(Node(DirInfo(perm), map[]), p, perm).1 == None
    ensures Lookup(MkdirAll(Node(DirInfo(perm), map[]), p, perm).0, q) == if q <= p then Some(DirInfo(perm)) else None
    decreases |p|
  {
    ProperTail(p);
    if |p| > 1 {
      NewDirs(p[1..], perm, if q == [] then [] else q[1..]);
    }
    if q != [] {
      TailPrefix(q, p);
    }
  }

  lemma {:induction false} LookupMkdir(t: Tree, p: Path, perm: Mode, q: Path)
    requires Proper(p) && MkdirAll(t, p, perm).1 == None
    ensures Lookup(MkdirAll(t, p, perm).0, q) ==
            if Lookup(t, q).Some? then Lookup(t, q) else if q <= p then Some(DirInfo(perm)) else None
    decreases |p|
  {
    ProperTail(p);
    if q != [] {
      TailPrefix(q, p);
      if p[0] in t.files {
        if |p| > 1 {
          LookupMkdir(t.files[p[0]], p[1..], perm, q[1..]);
        }
      } else if |p| > 1 {
        NewDirs(p[1..], perm, q[1..]);
      }
    }
  }

  lemma {:induction false} MkdirFailsIff(t: Tree, p: Path, perm: Mode)
    requires Proper(p) && WellFormed(t)
    ensures MkdirAll(t, p, perm).1 == if FileOnTheWay(Flat(t), p) then Some(Exist) else None
    ensures MkdirAll(t, p, perm).1.Some? ==> MkdirAll(t, p, perm).0 == t
    decreases |p|
  {
    ProperTail(p);
    forall k | 0 < k <= |p| ensures Lookup(t, p[..k]) == if p[0] in t.files then Lookup(t.files[p[0]], p[1..][..k - 1]) else None {
      assert p[..k][1..] == p[1..][..k - 1];
    }
    if p[0] in t.files {
      var sub := t.files[p[0]];
      assert p[..1][1..] == [];
      assert Lookup(t, p[..1]) == Some(sub.info);
      if |p| > 1 {
        MkdirFailsIff(sub, p[1..], perm);
        if k :| 0 < k <= |p[1..]| && p[1..][..k] in Flat(sub) && !Flat(sub)[p[1..][..k]].mode.dir {
          assert p[1..][..(k + 1) - 1] == p[1..][..k];
          assert p[..k + 1] in Flat(t);
        }
        if k :| 1 < k <= |p| && p[..k] in Flat(t) && !Flat(t)[p[..k]].mode.dir {
          assert p[1..][..k - 1] in Flat(sub);
        }
        assert t.files[p[0] := sub] == t.files;
      }
    } else if |p| > 1 {
      NewDirs(p[1..], perm, []);
    }
  }

  lemma {:induction false} LookupStore(t: Tree, p: Path, info: Info, q: Path)
    requires p != [] && Store(t, p, info).1 == None
    ensures Lookup(Store(t, p, info).0, q) ==
            if q == p then Some(info) else if p <= q then None else Lookup(t, q)
    decreases |p|
  {
    if q != [] {
      TailPrefix(p, q);
      if |p| > 1 {
        LookupStore(t.files[p[0]], p[1..], info, q[1..]);
      }
    }
  }

  lemma {:induction false} StoreFailsIff(t: Tree, p: Path, info: Info)
    requires p != [] && WellFormed(t) && IsDir(t)
    ensures var parent := Lookup(t, p[..|p| - 1]);
            Store(t, p, info).1 == if parent.Some? && parent.value.mode.dir then None else Some(NotExist)
    ensures Store(t, p, info).1.Some? ==> Store(t, p, info).0 == t
    decreases |p|
  {
    if |p| > 1 {
      assert p[..|p| - 1][1..] == p[1..][..|p[1..]| - 1];
      if p[0] in t.files {
        var sub := t.files[p[0]];
        assert t.files[p[0] := sub] == t.files;
        if IsDir(sub) {
          StoreFailsIff(sub, p[1..], info);
        }
      }
    }
  }

  lemma {:induction false} LookupRemove(t: Tree, p: Path, recursive: bool, q: Path)
    requires p != [] && RemovePath(t, p, recursive).1 == None
    ensures Lookup(RemovePath(t, p, recursive).0, q) == if p <= q then None else Lookup(t, q)
    decreases |p|
  {
    if q != [] {
      TailPrefix(p, q);
      if |p| > 1 {
        LookupRemove(t.files[p[0]], p[1..], recursive, q[1..]);
      }
    }
  }

  ghost predicate HasBelow(t: Tree, p: Path) {
    exists q :: p < q && Lookup(t, q).Some?
  }

  lemma ChildBelow(t: Tree)
    ensures HasBelow(t, []) <==> t.files != map[]
  {
    if t.files != map[] {
      var n :| n in t.files;
      assert [] < [n] && Lookup(t, [n]).Some? by {
        assert [n][1..] == [];
      }
    }
  }

  lemma BelowTail(t: Tree, p: Path)
    requires p != [] && p[0] in t.files
    ensures HasBelow(t, p) <==> HasBelow(t.files[p[0]], p[1..])
  {
    var sub := t.files[p[0]];
    if q :| p < q && Lookup(t, q).Some? {
      TailPrefix(p, q);
      assert p[1..] < q[1..] && Lookup(sub, q[1..]).Some?;
    }
    if q :| p[1..] < q && Lookup(sub, q).Some? {
      var r := [p[0]] + q;
      assert r[1..] == q;
      TailPrefix(p, r);
      assert p < r && Lookup(t, r).Some?;
    }
  }

  lemma {:induction false} RemoveFailsIff(t: Tree, p: Path, recursive: bool)
    requires p != [] && WellFormed(t)
    ensures RemovePath(t, p, recursive).1 ==
            if Lookup(t, p).None? then Some(NotExist)
            else if !recursive && HasBelow(t, p) then Some(Invalid) else None
    ensures RemovePath(t, p, recursive).1.Some? ==> RemovePath(t, p, recursive).0 == t
    decreases |p|
  {
    if p[0] in t.files {
      var sub := t.files[p[0]];
      BelowTail(t, p);
      assert t.files[p[0] := sub] == t.files;
      if |p| == 1 {
        assert p[1..] == [];
        ChildBelow(sub);
      } else if IsDir(sub) {
        RemoveFailsIff(sub, p[1..], recursive);
      }
    }
  }

  // ---------------------------------------------------------------------------
  // Well-formedness and prefix closure

  lemma {:induction false} MkdirWellFormed(t: Tree, p: Path, perm: Mode)
    requires p != [] && WellFormed(t) && IsDir(t)
    ensures WellFormed(MkdirAll(t, p, perm).0) && MkdirAll(t, p, perm).0.info == t.info
    decreases |p|
  {
    if !Self(p) && |p| > 1 {
      var sub := if p[0] in t.files then t.files[p[0]] else Node(DirInfo(perm), map[]);
      if IsDir(sub) {
        MkdirWellFormed(sub, p[1..], perm);
      }
    }
  }

  lemma {:induction false} StoreWellFormed(t: Tree, p: Path, info: Info)
    requires p != [] && WellFormed(t) && IsDir(t)
    ensures WellFormed(Store(t, p, info).0) && Store(t, p, info).0.info == t.info
    decreases |p|
  {
    if |p| > 1 && p[0] in t.files && IsDir(t.files[p[0]]) {
      StoreWellFormed(t.files[p[0]], p[1..], info);
    }
  }

  lemma {:induction false} RemoveWellFormed(t: Tree, p: Path, recursive: bool)
    requires p != [] && WellFormed(t) && IsDir(t)
    ensures WellFormed(RemovePath(t, p, recursive).0) && RemovePath(t, p, recursive).0.info == t.info
    decreases |p|
  {
    if |p| > 1 && p[0] in t.files && IsDir(t.files[p[0]]) {
      RemoveWellFormed(t.files[p[0]], p[1..], recursive);
    }
  }

  lemma {:induction false} LookupPrefix(t: Tree, q: Path, k: nat)
    requires WellFormed(t) && Lookup(t, q).Some? && k < |q|
    ensures Lookup(t, q[..k]).Some? && Lookup(t, q[..k]).value.mode.dir
    decreases |q|
  {
    if k > 0 {
      LookupPrefix(t.files[q[0]], q[1..], k - 1);
      assert q[..k][1..] == q[1..][..k - 1];
    }
  }

  /** The flat view of a well-formed tree is prefix-closed. */
  lemma FlatPrefixClosed(t: Tree)
    requires WellFormed(t)
    ensures PrefixClosed(Flat(t))
  {
    forall q, k | q in Flat(t) && 0 <= k < |q| ensures q[..k] in Flat(t) && Flat(t)[q[..k]].mode.dir {
      LookupPrefix(t, q, k);
    }
  }

  // ---------------------------------------------------------------------------
  // Refinement

  lemma FlatIs(t: Tree, m: FlatMap)
    requires forall q :: Lookup(t, q) == if q in m then Some(m[q]) else None
    ensures Flat(t) == m
  {
    forall q ensures q in Flat(t) <==> q in m {
      assert Lookup(t, q) == if q in m then Some(m[q]) else None;
    }
  }

  lemma MkdirRefines(t: Tree, p: Path, perm: Mode)
    requires WellFormed(t) && Proper(p)
    ensures var (t', error) := MkdirAll(t, p, perm); (Flat(t'), error) == FlatMkdir(Flat(t), p, perm)
  {
    MkdirFailsIff(t, p, perm);
    if !FileOnTheWay(Flat(t), p) {
      var t', m := MkdirAll(t, p, perm).0, FlatMkdir(Flat(t), p, perm).0;
      forall q ensures Lookup(t', q) == if q in m then Some(m[q]) else None {
        LookupMkdir(t, p, perm, q);
      }
      FlatIs(t', m);
    }
  }

  lemma StoreRefines(t: Tree, p: Path, info: Info)
    requires WellFormed(t) && IsDir(t) && p != []
    ensures var (t', error) := Store(t, p, info); (Flat(t'), error) == FlatStore(Flat(t), p, info)
  {
    StoreFailsIff(t, p, info);
    if Store(t, p, info).1.None? {
      var t', m := Store(t, p, info).0, FlatStore(Flat(t), p, info).0;
      forall q ensures Lookup(t', q) == if q in m then Some(m[q]) else None {
        LookupStore(t, p, info, q);
      }
      FlatIs(t', m);
    }
  }

  lemma RemoveRefines(t: Tree, p: Path, recursive: bool)
    requires WellFormed(t) && p != []
    ensures var (t', error) := RemovePath(t, p, recursive); (Flat(t'), error) == FlatRemove(Flat(t), p, recursive)
  {
    RemoveFailsIff(t, p, recursive);
    assert HasBelow(t, p) <==> exists q :: q in Flat(t) && p < q by {
      if q :| p < q && Lookup(t, q).Some? {
        assert q in Flat(t);
      }
    }
    if RemovePath(t, p, recursive).1.None? {
      var t', m := RemovePath(t, p, recursive).0, FlatRemove(Flat(t), p, recursive).0;
      forall q ensures Lookup(t', q) == if q in m then Some(m[q]) else None {
        LookupRemove(t, p, recursive, q);
      }
      FlatIs(t', m);
    }
  }

  /** One operation on the tree is the flat operation on its flat view, with the same
      error; a failing operation changes nothing. */
  lemma StepRefines(t: Tree, op: Op)
    requires WellFormed(t) && IsDir(t) && Clean(op.path)
    ensures var (t', error) := Step(t, op);
            && (Flat(t'), error) == FlatStep(Flat(t), op)
            && WellFormed(t') && IsDir(t')
            && (error.Some? ==> t' == t)
  {
    match op
    case Mkdir(p, perm) =>
      MkdirWellFormed(t, p, perm);
      if !Self(p) {
        MkdirRefines(t, p, perm);
        MkdirFailsIff(t, p, perm);
      }
    case WriteFile(p, underlying) =>
      var info := Info(underlying, [], Mode(false, 0, 0));
      StoreWellFormed(t, p, info);
      StoreRefines(t, p, info);
      StoreFailsIff(t, p, info);
    case WriteVirtual(p, data, mode) =>
      var info := Info("", data, mode);
      StoreWellFormed(t, p, info);
      StoreRefines(t, p, info);
      StoreFailsIff(t, p, info);
    case Remove(p, recursive) =>
      RemoveWellFormed(t, p, recursive);
      RemoveRefines(t, p, recursive);
      RemoveFailsIff(t, p, recursive);
  }

  function Run(t: Tree, ops: seq<Op>): (Tree, seq<Option<Error>>)
    requires forall i :: 0 <= i < |ops| ==> Clean(ops[i].path)
    decreases |ops|
  {
    if ops == [] then (t, [])
    else
      assert Clean(ops[0].path);
      var (t', error) := Step(t, ops[0]);
      var (t'', errors) := Run(t', ops[1..]);
      (t'', [error] + errors)
  }

  ghost function FlatRun(m: FlatMap, ops: seq<Op>): (FlatMap, seq<Option<Error>>)
    requires forall i :: 0 <= i < |ops| ==> Clean(ops[i].path)
    decreases |ops|
  {
    if ops == [] then (m, [])
    else
      assert Clean(ops[0].path);
      var (m', error) := FlatStep(m, ops[0]);
      var (m'', errors) := FlatRun(m', ops[1..]);
      (m'', [error] + errors)
  }

  /** Any run of mkdir, write and remove on the tree is the same run on the flat map, with
      the same errors, and the result is always prefix-closed. */
  lemma {:induction false} RunRefines(t: Tree, ops: seq<Op>)
    requires WellFormed(t) && IsDir(t)
    requires forall i :: 0 <= i < |ops| ==> Clean(ops[i].path)
    ensures var (t', errors) := Run(t, ops);
            && (Flat(t'), errors) == FlatRun(Flat(t), ops)
            && WellFormed(t') && IsDir(t') && PrefixClosed(Flat(t'))
    decreases |ops|
  {
    FlatPrefixClosed(t);
    if ops != [] {
      StepRefines(t, ops[0]);
      RunRefines(Step(t, ops[0]).0, ops[1..]);
    }
  }

  // ---------------------------------------------------------------------------
  // Reading

  lemma {:induction false} GetFileIsLookup(t: Tree, p: Path)
    requires WellFormed(t) && Proper(p)
    ensures Lookup(t, p) == match GetFile(t, p) case None => None case Some(sub) => Some(sub.info)
    decreases |p|
  {
    ProperTail(p);
    if p[0] in t.files && |p| > 1 && IsDir(t.files[p[0]]) {
      GetFileIsLookup(t.files[p[0]], p[1..]);
    }
  }

  /** After a successful write of a file, reading the same path gives that file, if and
      only if the path does not stand for the filesystem's root. */
  lemma ReadBackIff(t: Tree, p: Path, info: Info)
    requires WellFormed(t) && IsDir(t) && Clean(p) && !info.mode.dir && Store(t, p, info).1 == None
    ensures (exists sub :: GetFile(Store(t, p, info).0, p) == Some(sub) && sub.info == info) <==> !Self(p)
  {
    var t' := Store(t, p, info).0;
    StoreWellFormed(t, p, info);
    if !Self(p) {
      LookupStore(t, p, info, p);
      GetFileIsLookup(t', p);
    }
  }

  /** After a successful `Mkdir`, every path on the way is a directory: an old one as it was,
      a new one empty and with the permission bits asked for. Nothing else has changed. */
  lemma MkdirMakes(t: Tree, p: Path, perm: Mode, q: Path)
    requires WellFormed(t) && IsDir(t) && Proper(p) && Step(t, Mkdir(p, perm)).1 == None
    ensures Lookup(t, q).Some? ==> Lookup(Step(t, Mkdir(p, perm)).0, q) == Lookup(t, q)
    ensures Lookup(t, q).None? && q <= p ==>
              Lookup(Step(t, Mkdir(p, perm)).0, q) == Some(Info("", [], Mode(true, perm.perm, perm.other)))
    ensures Lookup(t, q).None? && !(q <= p) ==> Lookup(Step(t, Mkdir(p, perm)).0, q) == None
    ensures q != [] && q <= p ==> Lookup(Step(t, Mkdir(p, perm)).0, q).value.mode.dir
  {
    ProperTail(p);
    LookupMkdir(t, p, perm, q);
    MkdirFailsIff(t, p, perm);
    if q != [] && q <= p && Lookup(t, q).Some? {
      assert p[..|q|] == q;
      assert q in Flat(t);
    }
  }

  /** A successful write is read back as it was given: a virtual file with its data and mode,
      a real one with its underlying path. */
  lemma WriteReadsBack(t: Tree, op: Op)
    requires WellFormed(t) && IsDir(t) && Clean(op.path) && op.path != [""] && op.path != ["."]
    requires (op.WriteFile? || op.WriteVirtual?) && Step(t, op).1 == None
    ensures var f := GetFile(Step(t, op).0, op.path);
            && f.Some? && f.value.files == map[]
            && (op.WriteVirtual? ==> f.value.info.data == op.data && f.value.info.mode == op.mode && f.value.info.underlying == "")
            && (op.WriteFile? ==> f.value.info.underlying == op.underlying && !f.value.info.mode.dir)
  {
    var info := if op.WriteFile? then Info(op.underlying, [], Mode(false, 0, 0)) else Info("", op.data, op.mode);
    StoredIsFound(t, op.path, info);
  }

  lemma {:induction false} StoredIsFound(t: Tree, p: Path, info: Info)
    requires Proper(p) && Store(t, p, info).1 == None
    ensures GetFile(Store(t, p, info).0, p) == Some(Node(info, map[]))
    decreases |p|
  {
    ProperTail(p);
    if |p| > 1 {
      StoredIsFound(t.files[p[0]], p[1..], info);
      var sub := Store(t.files[p[0]], p[1..], info).0;
      assert sub.info == t.files[p[0]].info by {
        StoreKeepsInfo(t.files[p[0]], p[1..], info);
      }
    }
  }

  lemma StoreKeepsInfo(t: Tree, p: Path, info: Info)
    requires p != []
    ensures Store(t, p, info).0.info == t.info
  {
  }

  /** "" and "." stand for the root: it is found there, and neither `Mkdir` nor `Remove` on
      them does anything. */
  lemma RootPaths(t: Tree, p: Path, perm: Mode, recursive: bool)
    requires p == [""] || p == ["."]
    ensures Clean(p) && GetFile(t, p) == Some(t)
    ensures Step(t, Mkdir(p, perm)) == (t, None) && Step(t, Remove(p, recursive)) == (t, None)
  {
  }

  /** `Remove` takes away a path that has nothing below it, `RemoveAll` any path with all
      that is below it; neither touches anything else. */
  lemma RemoveTakes(t: Tree, p: Path, q: Path)
    requires WellFormed(t) && IsDir(t) && Proper(p)
    ensures Step(t, Remove(p, true)).1 == if Lookup(t, p).Some? then None else Some(NotExist)
    ensures Lookup(t, p).Some? && (exists r :: p < r && Lookup(t, r).Some?) ==> Step(t, Remove(p, false)) == (t, Some(Invalid))
    ensures Lookup(t, p).Some? && (forall r :: p < r ==> Lookup(t, r).None?) ==> Step(t, Remove(p, false)).1 == None
    ensures forall recursive :: Step(t, Remove(p, recursive)).1 == None ==>
              Lookup(Step(t, Remove(p, recursive)).0, q) == if p <= q then None else Lookup(t, q)
  {
    ProperTail(p);
    forall recursive ensures Step(t, Remove(p, recursive)).1 == None ==>
              Lookup(Step(t, Remove(p, recursive)).0, q) == if p <= q then None else Lookup(t, q) {
      if Step(t, Remove(p, recursive)).1 == None {
        LookupRemove(t, p, recursive, q);
      }
    }
    RemoveFailsIff(t, p, true);
    RemoveFailsIff(t, p, false);
  }
}
