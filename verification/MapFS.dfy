/** The entry points of pkg/mapfs/fs.go over the mutable tree, and `FilterFunc`, which
    walks one filesystem and builds another. */
module MapFS {
  import opened Options
  import opened Bytes
  import T = MapTree
  import opened Ordering
  import opened MapFile

  // ---------------------------------------------------------------------------
  // Walking

  /** The order of a walk: by name at the first difference, a directory before its content. */
  predicate PathLess(p: T.Path, q: T.Path) {
    q != [] && (p == [] || StrLess(p[0], q[0]) || (p[0] == q[0] && PathLess(p[1..], q[1..])))
  }

  /** The paths agree up to place `k`, where the first one ends or has the smaller name. */
  ghost predicate DiffersAt(p: T.Path, q: T.Path, k: nat) {
    k <= |p| && k < |q| && p[..k] == q[..k] && (k < |p| ==> StrLess(p[k], q[k]))
  }

  lemma DiffersLater(p: T.Path, q: T.Path, k: nat)
    requires p != [] && q != [] && p[0] == q[0]
    ensures DiffersAt(p[1..], q[1..], k) <==> DiffersAt(p, q, k + 1)
  {
    if k + 1 <= |p| && k + 1 < |q| {
      assert p[..k + 1] == [p[0]] + p[1..][..k] && q[..k + 1] == [q[0]] + q[1..][..k];
      assert p[..k + 1][1..] == p[1..][..k] && q[..k + 1][1..] == q[1..][..k];
    }
  }

  lemma DiffersFirst(p: T.Path, q: T.Path, k: nat)
    requires p != [] && q != [] && DiffersAt(p, q, k)
    ensures k == 0 ==> StrLess(p[0], q[0])
    ensures k > 0 ==> p[0] == q[0]
  {
    if k > 0 {
      assert p[..k][0] == p[0] && q[..k][0] == q[0];
    }
  }

  lemma {:induction false} PathLessExactly(p: T.Path, q: T.Path)
    ensures PathLess(p, q) <==> exists k: nat :: DiffersAt(p, q, k)
    decreases |p|
  {
    if q != [] && (p == [] || StrLess(p[0], q[0])) {
      assert DiffersAt(p, q, 0);
    }
    if p != [] && q != [] {
      PathLessExactly(p[1..], q[1..]);
      if p[0] == q[0] {
        StrIrreflexive(p[0]);
      }
      if k: nat :| DiffersAt(p, q, k) {
        DiffersFirst(p, q, k);
        if k > 0 {
          DiffersLater(p, q, k - 1);
        }
      }
      if p[0] == q[0] {
        if k: nat :| DiffersAt(p[1..], q[1..], k) {
          DiffersLater(p, q, k);
        }
      }
    }
  }

  lemma {:induction false} PathAsymmetric(p: T.Path, q: T.Path)
    ensures !(PathLess(p, q) && PathLess(q, p)) && !PathLess(p, p)
    decreases |p| + |q|
  {
    if p != [] && q != [] {
      StrTotal(p[0], q[0]);
      PathAsymmetric(p[1..], q[1..]);
    }
    if p != [] {
      StrIrreflexive(p[0]);
      PathAsymmetric(p[1..], []);
    }
  }

  lemma {:induction false} PrefixLess(p: T.Path, k: nat)
    requires k < |p|
    ensures PathLess(p[..k], p)
  {
    if k > 0 {
      PrefixLess(p[1..], k - 1);
      assert p[..k][1..] == p[1..][..k - 1];
    }
  }

  /** Each path is listed once, and in order. */
  ghost predicate Ascending(ps: seq<T.Path>) {
    forall i, j :: 0 <= i < j < |ps| ==> PathLess(ps[i], ps[j])
  }

  /** Every proper prefix of a listed path is listed before it. */
  ghost predicate ParentsFirst(ps: seq<T.Path>) {
    forall i, k :: 0 <= i < |ps| && 0 <= k < |ps[i]| ==> ps[i][..k] in ps[..i]
  }

  function Under(name: string, ps: seq<T.Path>): (r: seq<T.Path>)
    ensures |r| == |ps| && forall i :: 0 <= i < |ps| ==> r[i] == [name] + ps[i]
  {
    seq(|ps|, i requires 0 <= i < |ps| => [name] + ps[i])
  }

  lemma UnderMembers(name: string, ps: seq<T.Path>, q: T.Path)
    ensures q in Under(name, ps) <==> q != [] && q[0] == name && q[1..] in ps
  {
    if q in Under(name, ps) {
      var i :| 0 <= i < |ps| && Under(name, ps)[i] == q;
      assert q[1..] == ps[i];
    }
    if q != [] && q[0] == name && q[1..] in ps {
      var i :| 0 <= i < |ps| && ps[i] == q[1..];
      assert Under(name, ps)[i] == q;
    }
  }

  lemma AppendUnder(ps: seq<T.Path>, name: string, sub: seq<T.Path>)
    requires Ascending(ps) && Ascending(sub)
    requires forall q :: q in ps ==> q == [] || StrLess(q[0], name)
    ensures Ascending(ps + Under(name, sub))
  {
    var all := ps + Under(name, sub);
    forall i, j | 0 <= i < j < |all| ensures PathLess(all[i], all[j]) {
      if j >= |ps| {
        assert all[j] == [name] + sub[j - |ps|];
        if i < |ps| {
          assert all[i] in ps;
        } else {
          assert all[i] == [name] + sub[i - |ps|];
          assert all[i][1..] == sub[i - |ps|] && all[j][1..] == sub[j - |ps|];
        }
      }
    }
  }

  /** `ps` lists the root of `t` and everything below its children named in `done`. */
  ghost predicate Listed(t: T.Tree, done: seq<string>, ps: seq<T.Path>) {
    forall q :: q in ps <==> q == [] || (q[0] in done && T.Lookup(t, q).Some?)
  }

  ghost predicate ListsAll(t: T.Tree, ps: seq<T.Path>) {
    forall q :: q in ps <==> T.Lookup(t, q).Some?
  }

  lemma ListedStep(t: T.Tree, names: seq<string>, i: nat, ps: seq<T.Path>, sub: seq<T.Path>)
    requires NamesAscending(names) && i < |names| && names[i] in t.files
    requires Listed(t, names[..i], ps) && Ascending(ps)
    requires ListsAll(t.files[names[i]], sub) && Ascending(sub)
    ensures Listed(t, names[..i + 1], ps + Under(names[i], sub)) && Ascending(ps + Under(names[i], sub))
  {
    var name := names[i];
    forall q | q in ps && q != [] ensures StrLess(q[0], name) {
      assert q[0] in names[..i];
      var j :| 0 <= j < i && names[j] == q[0];
    }
    AppendUnder(ps, name, sub);
    forall q ensures q in ps + Under(name, sub) <==> q == [] || (q[0] in names[..i + 1] && T.Lookup(t, q).Some?) {
      UnderMembers(name, sub, q);
      if q != [] {
        assert q[0] in names[..i + 1] <==> q[0] in names[..i] || q[0] == name;
      }
    }
  }

  lemma ListedAll(t: T.Tree, names: seq<string>, ps: seq<T.Path>)
    requires Listed(t, names, ps) && forall n :: n in t.files ==> n in names
    ensures ListsAll(t, ps)
  {
    forall q ensures q in ps <==> T.Lookup(t, q).Some? {
      assert q != [] && T.Lookup(t, q).Some? ==> q[0] in t.files;
    }
  }

  /** A listing in order has parents before children. */
  lemma AscendingParentsFirst(t: T.Tree, ps: seq<T.Path>)
    requires T.WellFormed(t) && ListsAll(t, ps) && Ascending(ps)
    ensures ParentsFirst(ps)
  {
    forall i, k | 0 <= i < |ps| && 0 <= k < |ps[i]| ensures ps[i][..k] in ps[..i] {
      var p := ps[i][..k];
      assert ps[i] in ps;
      T.LookupPrefix(t, ps[i], k);
      assert p in ps;
      var j :| 0 <= j < |ps| && ps[j] == p;
      PrefixLess(ps[i], k);
      PathAsymmetric(p, ps[i]);
      if j < i {
        assert ps[..i][j] == p;
      }
    }
  }

  // ---------------------------------------------------------------------------
  // Directory listings

  ghost predicate NamesAscending(names: seq<string>) {
    forall i, j :: 0 <= i < j < |names| ==> StrLess(names[i], names[j])
  }

  lemma InsertAscending(names: seq<string>, name: string, k: nat)
    requires NamesAscending(names) && k <= |names|
    requires forall i :: 0 <= i < k ==> StrLess(names[i], name)
    requires forall i :: k <= i < |names| ==> StrLess(name, names[i])
    ensures NamesAscending(names[..k] + [name] + names[k..])
  {
    var r := names[..k] + [name] + names[k..];
    forall i, j | 0 <= i < j < |r| ensures StrLess(r[i], r[j]) {
      if i != k && j != k {
        assert r[i] == names[if i < k then i else i - 1] && r[j] == names[if j < k then j else j - 1];
      }
    }
  }

  /** Puts a new name in its place. */
  method InsertName(names: seq<string>, name: string) returns (r: seq<string>)
    requires NamesAscending(names) && name !in names
    ensures NamesAscending(r) && forall x :: x in r <==> x in names || x == name
  {
    var k := |names|;
    while k > 0 && StrLess(name, names[k - 1])
      invariant 0 <= k <= |names|
      invariant forall i :: k <= i < |names| ==> StrLess(name, names[i])
    {
      k := k - 1;
    }
    forall i | 0 <= i < k ensures StrLess(names[i], name) {
      StrTotal(name, names[k - 1]);
      assert names[k - 1] in names;
      if i < k - 1 {
        StrTransitive(names[i], names[k - 1], name);
      }
    }
    InsertAscending(names, name, k);
    r := names[..k] + [name] + names[k..];
    assert names == names[..k] + names[k..];
  }

  /** A set of names in order. */
  method SortedNames(keys: set<string>) returns (names: seq<string>)
    ensures NamesAscending(names) && forall x :: x in names <==> x in keys
  {
    names := [];
    var left := keys;
    while left != {}
      invariant left <= keys && NamesAscending(names)
      invariant forall x :: x in names <==> x in keys && x !in left
      decreases |left|
    {
      var name :| name in left;
      names := InsertName(names, name);
      left := left - {name};
    }
  }

  lemma ChildOf(f: File, name: string)
    requires f.Valid() && name in f.files
    ensures f.files[name].Valid() && f.files[name].Repr < f.Repr
    ensures name in f.view.files && f.files[name].view == f.view.files[name]
  {
  }

  /** The sorted names of a directory, as `ReadDir` lists them. */
  method ListDir(f: File) returns (names: seq<string>)
    requires f.Valid()
    ensures NamesAscending(names) && forall x :: x in names <==> x in f.view.files
  {
    names := SortedNames(f.files.Keys);
  }

  method WalkChild(f: File, name: string) returns (ps: seq<T.Path>)
    requires f.Valid() && name in f.view.files
    ensures Ascending(ps) && ListsAll(f.view.files[name], ps)
    decreases f.Repr, 0
  {
    ChildOf(f, name);
    ps := Walk(f.files[name]);
  }

  /** The walk after the first `i` names of a directory. */
  ghost predicate Walked(t: T.Tree, names: seq<string>, i: nat, ps: seq<T.Path>) {
    i <= |names| && Ascending(ps) && Listed(t, names[..i], ps)
  }

  lemma WalkedStart(t: T.Tree, names: seq<string>)
    ensures Walked(t, names, 0, [[]])
  {
  }

  lemma WalkedEnd(t: T.Tree, names: seq<string>, ps: seq<T.Path>)
    requires Walked(t, names, |names|, ps) && forall n :: n in t.files ==> n in names
    ensures Ascending(ps) && ListsAll(t, ps)
  {
    assert names[..|names|] == names;
    ListedAll(t, names, ps);
  }

  method WalkNext(f: File, names: seq<string>, i: nat, before: seq<T.Path>) returns (ps: seq<T.Path>)
    requires f.Valid() && NamesAscending(names) && i < |names| && names[i] in f.view.files
    requires Walked(f.view, names, i, before)
    ensures Walked(f.view, names, i + 1, ps)
    decreases f.Repr, 1
  {
    var sub := WalkChild(f, names[i]);
    ListedStep(f.view, names, i, before, sub);
    ps := before + Under(names[i], sub);
  }

  /** Lists every path below `f` once, in the order of the walk. */
  method Walk(f: File) returns (ps: seq<T.Path>)
    requires f.Valid()
    ensures Ascending(ps) && ListsAll(f.view, ps)
    decreases f.Repr, 2
  {
    var names := ListDir(f);
    ps := [[]];
    WalkedStart(f.view, names);
    for i := 0 to |names|
      invariant Walked(f.view, names, i, ps)
    {
      assert names[i] in names;
      ps := WalkNext(f, names, i, ps);
    }
    WalkedEnd(f.view, names, ps);
  }

  // ---------------------------------------------------------------------------
  // FilterFunc

  /** The caller's filter: `None` is an error, `Some(true)` drops the file. */
  type Filter = T.Path -> Option<bool>

  /** What the operating system says about the underlying path of a real file. */
  datatype OsKind = Missing | OsDirectory | OsFile

  type Stat = string -> OsKind

  /** Every node bears a proper name, except that a file may have been written under a name
      of the root itself. Directories are never real. */
  ghost predicate CleanNames(t: T.Tree) {
    forall q :: q != [] && T.Lookup(t, q).Some? ==>
                  && (T.Lookup(t, q).value.mode.dir ==> T.Proper(q) && T.Lookup(t, q).value.underlying == "")
                  && T.Clean(q)
  }

  lemma ProperPrefix(p: T.Path, q: T.Path)
    requires T.Proper(p) && q != [] && q <= p
    ensures T.Proper(q)
  {
    assert forall i :: 0 <= i < |q| ==> q[i] == p[i];
  }

  /** The operations keep it so. */
  lemma CleanNamesStep(t: T.Tree, op: T.Op)
    requires T.WellFormed(t) && T.IsDir(t) && CleanNames(t) && T.Clean(op.path)
    ensures CleanNames(T.Step(t, op).0)
  {
    var t' := T.Step(t, op).0;
    T.StepRefines(t, op);
    forall q | q != [] && T.Lookup(t', q).Some?
      ensures T.Lookup(t', q).value.mode.dir ==> T.Proper(q) && T.Lookup(t', q).value.underlying == ""
      ensures T.Clean(q)
    {
      assert q in T.Flat(t') && T.Flat(t')[q] == T.Lookup(t', q).value;
      if q in T.Flat(t) {
        assert T.Lookup(t, q).Some?;
      } else if T.Proper(op.path) {
        ProperPrefix(op.path, q);
      }
    }
  }

  /** What the new filesystem holds in place of a node: directories keep their permission
      bits, virtual files their data and mode, real files their underlying path. */
  function Copied(info: T.Info): T.Info {
    if info.mode.dir then T.DirInfo(T.Mode(false, info.mode.perm, 0))
    else if info.underlying == "" then info
    else T.Info(info.underlying, [], T.Mode(false, 0, 0))
  }

  /** The entry of the filtered filesystem at `q`, as far as the paths in `seen` go. */
  ghost function Wanted(t: T.Tree, fn: Filter, seen: seq<T.Path>, q: T.Path): Option<T.Info> {
    if q == [] then Some(T.ROOT_INFO)
    else if q in seen && Keeps(t, fn, q) then Some(Copied(T.Lookup(t, q).value))
    else None
  }

  ghost predicate Copies(t: T.Tree, fn: Filter, seen: seq<T.Path>, u: T.Tree) {
    T.WellFormed(u) && T.IsDir(u) && forall q :: T.Lookup(u, q) == Wanted(t, fn, seen, q)
  }

  ghost predicate Reads(t: T.Tree, ps: seq<T.Path>) {
    ParentsFirst(ps) && ListsAll(t, ps)
  }

  /** Above a listed path there are only directories, all of them copied already. */
  lemma PrefixesCopied(t: T.Tree, fn: Filter, ps: seq<T.Path>, i: nat, u: T.Tree, k: nat)
    requires T.WellFormed(t) && Reads(t, ps) && i < |ps| && Copies(t, fn, ps[..i], u)
    requires T.Proper(ps[i]) && k < |ps[i]|
    ensures T.Lookup(u, ps[i][..k]).Some? && T.Lookup(u, ps[i][..k]).value.mode.dir
  {
    T.LookupPrefix(t, ps[i], k);
    assert ps[i][..k] in ps[..i];
    if k > 0 {
      ProperPrefix(ps[i], ps[i][..k]);
    }
  }

  lemma CopyDir(t: T.Tree, fn: Filter, ps: seq<T.Path>, i: nat, u: T.Tree)
    requires T.WellFormed(t) && Reads(t, ps) && i < |ps| && Copies(t, fn, ps[..i], u)
    requires Keeps(t, fn, ps[i]) && T.Lookup(t, ps[i]).value.mode.dir
    ensures var (u', error) := T.MkdirAll(u, ps[i], T.Mode(false, T.Lookup(t, ps[i]).value.mode.perm, 0));
            error.None? && Copies(t, fn, ps[..i + 1], u')
  {
    var p, perm := ps[i], T.Mode(false, T.Lookup(t, ps[i]).value.mode.perm, 0);
    T.MkdirWellFormed(u, p, perm);
    T.MkdirFailsIff(u, p, perm);
    forall k | 0 < k <= |p| && p[..k] in T.Flat(u) ensures T.Flat(u)[p[..k]].mode.dir {
      if k < |p| {
        PrefixesCopied(t, fn, ps, i, u, k);
      } else {
        assert p[..k] == p;
      }
    }
    forall q ensures T.Lookup(T.MkdirAll(u, p, perm).0, q) == Wanted(t, fn, ps[..i + 1], q) {
      T.LookupMkdir(u, p, perm, q);
      assert q in ps[..i + 1] <==> q in ps[..i] || q == p;
      if q <= p && q != p {
        assert q == p[..|q|];
        PrefixesCopied(t, fn, ps, i, u, |q|);
      }
    }
  }

  lemma CopyFile(t: T.Tree, fn: Filter, ps: seq<T.Path>, i: nat, u: T.Tree)
    requires T.WellFormed(t) && Reads(t, ps) && i < |ps| && Copies(t, fn, ps[..i], u)
    requires Keeps(t, fn, ps[i]) && !T.Lookup(t, ps[i]).value.mode.dir
    ensures var (u', error) := T.Store(u, ps[i], Copied(T.Lookup(t, ps[i]).value));
            error.None? && Copies(t, fn, ps[..i + 1], u')
  {
    var p, info := ps[i], Copied(T.Lookup(t, ps[i]).value);
    PrefixesCopied(t, fn, ps, i, u, |p| - 1);
    T.StoreFailsIff(u, p, info);
    T.StoreWellFormed(u, p, info);
    forall q ensures T.Lookup(T.Store(u, p, info).0, q) == Wanted(t, fn, ps[..i + 1], q) {
      T.LookupStore(u, p, info, q);
      assert q in ps[..i + 1] <==> q in ps[..i] || q == p;
      if p < q {
        assert q[..|p|] == p;
        if T.Lookup(t, q).Some? {
          T.LookupPrefix(t, q, |p|);
        }
      }
    }
  }

  lemma CopyNothing(t: T.Tree, fn: Filter, ps: seq<T.Path>, i: nat, u: T.Tree)
    requires i < |ps| && Copies(t, fn, ps[..i], u)
    requires !Keeps(t, fn, ps[i])
    ensures Copies(t, fn, ps[..i + 1], u)
  {
    forall q ensures T.Lookup(u, q) == Wanted(t, fn, ps[..i + 1], q) {
      assert q in ps[..i + 1] <==> q in ps[..i] || q == ps[i];
    }
  }

  /** The calls that `FilterFunc` makes on the new filesystem. */
  function DirOp(mode: T.Mode, p: T.Path): T.Op {
    T.Mkdir(p, T.Mode(false, mode.perm, 0))
  }

  function FileOp(info: T.Info, p: T.Path): T.Op {
    if info.underlying == "" then T.WriteVirtual(p, info.data, info.mode) else T.WriteFile(p, info.underlying)
  }

  function CopyOp(info: T.Info, p: T.Path): T.Op {
    if info.mode.dir then DirOp(info.mode, p) else FileOp(info, p)
  }

  /** Directories and unfiltered files. */
  ghost predicate Keeps(t: T.Tree, fn: Filter, p: T.Path) {
    T.Proper(p) && T.Lookup(t, p).Some? && (T.Lookup(t, p).value.mode.dir || fn(p) == Some(false))
  }

  lemma CopyStep(t: T.Tree, fn: Filter, ps: seq<T.Path>, i: nat, u: T.Tree)
    requires T.WellFormed(t) && Reads(t, ps) && i < |ps| && Copies(t, fn, ps[..i], u)
    requires Keeps(t, fn, ps[i])
    ensures var (u', error) := T.Step(u, CopyOp(T.Lookup(t, ps[i]).value, ps[i]));
            error.None? && Copies(t, fn, ps[..i + 1], u')
  {
    if T.Lookup(t, ps[i]).value.mode.dir {
      CopyDir(t, fn, ps, i, u);
    } else {
      CopyFile(t, fn, ps, i, u);
    }
  }

  lemma CopyStart(t: T.Tree, fn: Filter)
    ensures Copies(t, fn, [], T.Root())
  {
  }

  lemma CopyEnd(t: T.Tree, fn: Filter, ps: seq<T.Path>, u: T.Tree)
    requires Reads(t, ps) && Copies(t, fn, ps, u)
    ensures T.Flat(u) == FlatFilter(T.Flat(t), fn)
  {
    assert T.Flat(u) == FlatFilter(T.Flat(t), fn);
  }

  /** The flat map that `FilterFunc` promises. */
  ghost function FlatFilter(m: T.FlatMap, fn: Filter): T.FlatMap {
    imap q: T.Path | q == [] || (q in m && T.Proper(q) && (m[q].mode.dir || fn(q) == Some(false))) ::
      if q == [] then T.ROOT_INFO else Copied(m[q])
  }

  /** What the filtered filesystem holds at `q`, given what the old one holds there:
      directories with their permission bits, virtual files with their data and mode, real
      files with their underlying path, and nothing for what the filter drops. */
  ghost predicate Carried(before: Option<T.Info>, dropped: bool, after: Option<T.Info>) {
    match before
    case None => after == None
    case Some(info) =>
      if info.mode.dir then
        after.Some? && after.value.mode.dir && after.value.mode.perm == info.mode.perm && after.value.underlying == ""
      else if dropped then after == None
      else if info.underlying == "" then
        after.Some? && after.value.data == info.data && after.value.mode == info.mode && after.value.underlying == ""
      else after.Some? && after.value.underlying == info.underlying && !after.value.mode.dir
  }

  /** The filtered filesystem, path by path. Files under the root's own path are dropped. */
  lemma FilteredContent(t: T.Tree, fn: Filter, u: T.Tree, q: T.Path)
    requires T.Flat(u) == FlatFilter(T.Flat(t), fn) && CleanNames(t) && q != []
    ensures q != [""] && q != ["."] ==> Carried(T.Lookup(t, q), fn(q) != Some(false), T.Lookup(u, q))
    ensures q == [""] || q == ["."] ==> T.Lookup(u, q) == None
  {
    assert q in T.Flat(u) <==> T.Lookup(u, q).Some?;
    assert q in T.Flat(t) <==> T.Lookup(t, q).Some?;
    if T.Lookup(u, q).Some? {
      assert T.Flat(u)[q] == T.Lookup(u, q).value;
    }
    if T.Lookup(t, q).Some? {
      assert T.Clean(q);
      assert T.Flat(t)[q] == T.Lookup(t, q).value;
    }
  }

  const ROOT_PATH: T.Path := ["."]

  /** The walk runs in circles at `q`: a real file under a name of the root that is a
      directory on disk. The walk takes it for a directory and lists the root again. */
  ghost predicate WalkLoops(t: T.Tree, os: Stat, q: T.Path) {
    && T.Self(q) && T.Lookup(t, q).Some?
    && T.Lookup(t, q).value.underlying != "" && os(T.Lookup(t, q).value.underlying) == OsDirectory
  }

  /** The walk fails at the node at `q`: a real file that is missing or a directory on
      disk, a file on which the filter fails, or a file under a name of the root that the
      filter does not drop. */
  ghost predicate FilterFails(t: T.Tree, fn: Filter, os: Stat, q: T.Path) {
    && !WalkLoops(t, os, q)
    && q != [] && T.Lookup(t, q).Some? && !T.Lookup(t, q).value.mode.dir
    && var info := T.Lookup(t, q).value;
       || (info.underlying != "" && os(info.underlying) != OsFile)
       || (if T.Self(q) then fn(ROOT_PATH) != Some(true) else fn(q).None?)
  }

  lemma AllCarried(t: T.Tree, fn: Filter, u: T.Tree)
    requires T.Flat(u) == FlatFilter(T.Flat(t), fn) && CleanNames(t)
    ensures forall q :: q != [] && q != [""] && q != ["."] ==> Carried(T.Lookup(t, q), fn(q) != Some(false), T.Lookup(u, q))
  {
    forall q | q != [] && q != [""] && q != ["."] ensures Carried(T.Lookup(t, q), fn(q) != Some(false), T.Lookup(u, q)) {
      FilteredContent(t, fn, u, q);
    }
  }

  /** The walk gets past a node: a directory, or a file on which the filter gives an answer
      and which is a file on disk if it is real. Under the root's own path only a file that
      the filter drops lets it pass. */
  ghost predicate LetsPass(info: T.Info, answer: Option<bool>, atRoot: bool, os: Stat) {
    info.mode.dir ||
    ((info.underlying != "" ==> os(info.underlying) == OsFile) && (if atRoot then answer == Some(true) else answer != None))
  }

  ghost predicate PassedAt(t: T.Tree, fn: Filter, os: Stat, q: T.Path) {
    q != [] && T.Lookup(t, q).Some? ==>
      var atRoot := q == [""] || q == ["."];
      LetsPass(T.Lookup(t, q).value, fn(if atRoot then ["."] else q), atRoot, os)
  }

  lemma PassIffNoFailure(t: T.Tree, fn: Filter, os: Stat, q: T.Path)
    requires CleanNames(t)
    ensures PassedAt(t, fn, os, q) <==> !FilterFails(t, fn, os, q) && !WalkLoops(t, os, q)
  {
    if T.Self(q) && T.Lookup(t, q).Some? {
      assert q[0] == "" || q[0] == ".";
      assert !T.Proper(q);
    }
  }

  ghost predicate NoneFails(t: T.Tree, fn: Filter, os: Stat, seen: seq<T.Path>) {
    forall q :: q in seen ==> !FilterFails(t, fn, os, q) && !WalkLoops(t, os, q)
  }

  /** A file written to the root's own path makes the filter fail, even one that keeps
      everything: the walk hands the file out under the root's name, finds the root there,
      and cannot write a directory as a file. */
  lemma RootFileStopsFilter(t: T.Tree, fn: Filter, os: Stat, data: seq<Byte>)
    requires t == T.Step(T.Root(), T.WriteVirtual(ROOT_PATH, data, T.Mode(false, 0, 0))).0
    requires forall q :: fn(q) == Some(false)
    ensures FilterFails(t, fn, os, ROOT_PATH)
  {
    T.LookupStore(T.Root(), ROOT_PATH, T.Info("", data, T.Mode(false, 0, 0)), ROOT_PATH);
  }

  // ---------------------------------------------------------------------------
  // The filesystem

  /** What the walk callback does at one path. */
  datatype Visit = Abort | Loop | Pass | Copy(op: T.Op)

  /** How a walk ends, if it does. */
  datatype Outcome = Completed | Stopped | Endless

  /** The entry that `ReadDir` lists for a path of the walk. */
  method EntryAt(src: File, path: T.Path) returns (entry: File)
    requires src.Valid() && T.WellFormed(src.view) && CleanNames(src.view)
    requires path != [] && T.Lookup(src.view, path).Some?
    ensures entry in src.Repr && T.Lookup(src.view, path) == Some(T.Info(entry.underlying, entry.data, entry.mode))
  {
    if |path| == 1 {
      entry := src.files[path[0]];
      assert path[1..] == [];
    } else {
      T.GetFileIsLookup(src.view, path);
      var f := src.GetFile(path);
      entry := f;
    }
  }

  method VisitPath(src: File, fn: Filter, os: Stat, path: T.Path) returns (visit: Visit)
    requires src.Valid() && T.WellFormed(src.view) && T.IsDir(src.view) && src.underlying == ""
    requires CleanNames(src.view) && T.Lookup(src.view, path).Some?
    ensures visit.Loop? <==> WalkLoops(src.view, os, path)
    ensures FilterFails(src.view, fn, os, path) ==>
              visit.Abort? || (visit.Copy? && visit.op.WriteVirtual? && visit.op.path == ROOT_PATH && visit.op.mode.dir)
    ensures !FilterFails(src.view, fn, os, path) && Keeps(src.view, fn, path) ==>
              visit == Copy(CopyOp(T.Lookup(src.view, path).value, path))
    ensures !FilterFails(src.view, fn, os, path) && !Keeps(src.view, fn, path) ==> visit.Pass? || visit.Loop?
    ensures visit.Copy? && !FilterFails(src.view, fn, os, path) ==>
              var info := T.Lookup(src.view, path).value;
              visit.op == if info.mode.dir then T.Mkdir(path, T.Mode(false, info.mode.perm, 0))
                          else if info.underlying == "" then T.WriteVirtual(path, info.data, info.mode)
                          else T.WriteFile(path, info.underlying)
  {
    if path == [] {
      return Pass;
    }
    var d := EntryAt(src, path);
    var dir := d.mode.dir;
    if d.underlying != "" {
      var kind := os(d.underlying);
      if kind == OsDirectory && T.Self(path) {
        return Loop;
      }
      if kind != OsFile {
        return Abort;
      }
      dir := false;
    }
    if dir {
      return Copy(DirOp(d.mode, path));
    }
    var name := if T.Self(path) then ROOT_PATH else path;
    var filtered := fn(name);
    if filtered.None? {
      return Abort;
    }
    if filtered.value {
      return Pass;
    }
    if !T.Self(path) {
      T.GetFileIsLookup(src.view, path);
    }
    var f := src.GetFile(name);
    visit := Copy(FileOp(T.Info(f.underlying, f.data, f.mode), name));
  }

  class FS {
    const root: File

    ghost predicate Valid()
      reads this, root, root.Repr
    {
      root.Valid() && T.WellFormed(root.view) && T.IsDir(root.view) && root.underlying == "" && CleanNames(root.view)
    }

    constructor ()
      ensures Valid() && fresh(root.Repr) && root.view == T.Root()
      ensures root.view == T.Node(T.Info("", [], T.Mode(true, 448, 0)), map[])
    {
      var f := new File(T.ROOT_INFO);
      root := f;
    }

    /** The invariant after any operation. */
    lemma Keep(op: T.Op)
      requires Valid() && T.Clean(op.path)
      ensures var t := T.Step(root.view, op).0;
              T.WellFormed(t) && T.IsDir(t) && t.info == root.view.info && CleanNames(t)
    {
      T.StepRefines(root.view, op);
      CleanNamesStep(root.view, op);
      match op
      case Mkdir(p, perm) => T.MkdirWellFormed(root.view, p, perm);
      case WriteFile(p, underlying) => T.StoreWellFormed(root.view, p, T.Info(underlying, [], T.Mode(false, 0, 0)));
      case WriteVirtual(p, data, mode) => T.StoreWellFormed(root.view, p, T.Info("", data, mode));
      case Remove(p, recursive) => T.RemoveWellFormed(root.view, p, recursive);
    }

    method MkdirAll(path: T.Path, perm: T.Mode) returns (error: Option<T.Error>)
      requires Valid() && T.Clean(path)
      modifies root.Repr
      ensures Valid() && fresh(root.Repr - old(root.Repr))
      ensures (root.view, error) == T.Step(old(root.view), T.Mkdir(path, perm))
    {
      Keep(T.Mkdir(path, perm));
      error := root.MkdirAll(path, perm);
    }

    method WriteFile(path: T.Path, underlying: string) returns (error: Option<T.Error>)
      requires Valid() && T.Clean(path)
      modifies root.Repr
      ensures Valid() && fresh(root.Repr - old(root.Repr))
      ensures (root.view, error) == T.Step(old(root.view), T.WriteFile(path, underlying))
    {
      Keep(T.WriteFile(path, underlying));
      if underlying == "" {
        return Some(T.BadArgument);
      }
      error := root.Store(path, T.Info(underlying, [], T.Mode(false, 0, 0)));
    }

    method WriteVirtualFile(path: T.Path, data: seq<Byte>, mode: T.Mode) returns (error: Option<T.Error>)
      requires Valid() && T.Clean(path)
      modifies root.Repr
      ensures Valid() && fresh(root.Repr - old(root.Repr))
      ensures (root.view, error) == T.Step(old(root.view), T.WriteVirtual(path, data, mode))
    {
      Keep(T.WriteVirtual(path, data, mode));
      if mode.dir {
        return Some(T.BadArgument);
      }
      error := root.Store(path, T.Info("", data, mode));
    }

    /** `Remove` and, with `recursive`, `RemoveAll`. */
    method Remove(path: T.Path, recursive: bool) returns (error: Option<T.Error>)
      requires Valid() && T.Clean(path)
      modifies root.Repr
      ensures Valid() && fresh(root.Repr - old(root.Repr))
      ensures (root.view, error) == T.Step(old(root.view), T.Remove(path, recursive))
    {
      Keep(T.Remove(path, recursive));
      if T.Self(path) {
        return None;
      }
      error := root.RemovePath(path, recursive);
    }

    method Do(op: T.Op) returns (error: Option<T.Error>)
      requires Valid() && T.Clean(op.path)
      modifies root.Repr
      ensures Valid() && fresh(root.Repr - old(root.Repr))
      ensures (root.view, error) == T.Step(old(root.view), op)
    {
      match op
      case Mkdir(path, perm) => error := MkdirAll(path, perm);
      case WriteFile(path, underlying) => error := WriteFile(path, underlying);
      case WriteVirtual(path, data, mode) => error := WriteVirtualFile(path, data, mode);
      case Remove(path, recursive) => error := Remove(path, recursive);
    }

    method CopyPath(visit: Visit, ghost t: T.Tree, ghost fn: Filter, ghost ps: seq<T.Path>, ghost i: nat)
      returns (error: Option<T.Error>)
      requires Valid() && T.WellFormed(t) && Reads(t, ps) && i < |ps| && !visit.Abort? && !visit.Loop?
      requires visit.Copy? ==>
                 || (visit.op.WriteVirtual? && visit.op.path == ROOT_PATH && visit.op.mode.dir)
                 || (Keeps(t, fn, ps[i]) && visit.op == CopyOp(T.Lookup(t, ps[i]).value, ps[i]))
      requires visit.Pass? ==> !Keeps(t, fn, ps[i])
      requires Copies(t, fn, ps[..i], root.view)
      modifies root.Repr
      ensures Valid() && fresh(root.Repr - old(root.Repr))
      ensures error.Some? <==> visit.Copy? && visit.op.WriteVirtual? && visit.op.mode.dir
      ensures error.None? ==> Copies(t, fn, ps[..i + 1], root.view)
    {
      if visit.Copy? {
        if Keeps(t, fn, ps[i]) {
          CopyStep(t, fn, ps, i, root.view);
        }
        error := Do(visit.op);
      } else {
        CopyNothing(t, fn, ps, i, root.view);
        error := None;
      }
    }

    method CopyOne(src: File, fn: Filter, os: Stat, ps: seq<T.Path>, i: nat) returns (outcome: Outcome)
      requires Valid() && src.Valid() && T.WellFormed(src.view) && T.IsDir(src.view) && src.underlying == ""
      requires CleanNames(src.view)
      requires Reads(src.view, ps) && i < |ps| && Copies(src.view, fn, ps[..i], root.view)
      modifies root.Repr
      ensures Valid() && fresh(root.Repr - old(root.Repr))
      ensures outcome.Stopped? <==> FilterFails(old(src.view), fn, os, ps[i])
      ensures outcome.Endless? <==> WalkLoops(old(src.view), os, ps[i])
      ensures outcome.Completed? ==> Copies(old(src.view), fn, ps[..i + 1], root.view)
    {
      assert ps[i] in ps;
      var visit := VisitPath(src, fn, os, ps[i]);
      if visit.Abort? {
        return Stopped;
      }
      if visit.Loop? {
        return Endless;
      }
      var error := CopyPath(visit, src.view, fn, ps, i);
      outcome := if error.Some? then Stopped else Completed;
    }

    method CopyAll(src: File, fn: Filter, os: Stat, ps: seq<T.Path>) returns (outcome: Outcome)
      requires Valid() && src.Valid() && src.Repr !! root.Repr && T.WellFormed(src.view) && CleanNames(src.view)
      requires T.IsDir(src.view) && src.underlying == ""
      requires Reads(src.view, ps) && Copies(src.view, fn, [], root.view)
      modifies root.Repr
      ensures Valid() && fresh(root.Repr - old(root.Repr))
      ensures outcome.Completed? <==> NoneFails(src.view, fn, os, ps)
      ensures outcome.Stopped? ==> exists q :: FilterFails(src.view, fn, os, q)
      ensures outcome.Endless? ==> exists q :: WalkLoops(src.view, os, q)
      ensures outcome.Completed? ==> Copies(src.view, fn, ps, root.view)
    {
      ghost var t := src.view;
      assert ps[..0] == [];
      for i := 0 to |ps|
        invariant Valid() && fresh(root.Repr - old(root.Repr))
        invariant src.Valid() && src.view == t && src.Repr !! root.Repr && src.underlying == ""
        invariant Copies(t, fn, ps[..i], root.view) && NoneFails(t, fn, os, ps[..i])
      {
        assert ps[i] in ps && ps[..i + 1] == ps[..i] + [ps[i]];
        outcome := CopyOne(src, fn, os, ps, i);
        if !outcome.Completed? {
          return;
        }
      }
      outcome := Completed;
      assert ps[..|ps|] == ps;
    }

    /** Builds a filesystem with the same directories and exactly the files that `fn` does
        not filter, and leaves this one alone. It completes exactly when no node stops the
        walk, as `FilterFails` says, or sends it round in circles. */
    method FilterFunc(fn: Filter, os: Stat) returns (newFS: FS, outcome: Outcome)
      requires Valid()
      ensures newFS.Valid() && fresh(newFS) && fresh(newFS.root.Repr)
      ensures outcome.Completed? <==> forall q :: !FilterFails(root.view, fn, os, q) && !WalkLoops(root.view, os, q)
      ensures outcome.Completed? <==> forall q :: PassedAt(root.view, fn, os, q)
      ensures outcome.Stopped? ==> exists q :: FilterFails(root.view, fn, os, q)
      ensures outcome.Endless? ==> exists q :: (q == [""] || q == ["."]) && T.Lookup(root.view, q).Some? &&
                                               os(T.Lookup(root.view, q).value.underlying) == OsDirectory
      ensures outcome.Completed? ==> T.Flat(newFS.root.view) == FlatFilter(T.Flat(root.view), fn)
      ensures outcome.Completed? ==> forall q :: q != [] && q != [""] && q != ["."] ==>
                Carried(T.Lookup(root.view, q), fn(q) != Some(false), T.Lookup(newFS.root.view, q))
    {
      newFS := new FS();
      var ps := Walk(root);
      AscendingParentsFirst(root.view, ps);
      CopyStart(root.view, fn);
      outcome := newFS.CopyAll(root, fn, os, ps);
      forall q ensures PassedAt(root.view, fn, os, q) <==> !FilterFails(root.view, fn, os, q) && !WalkLoops(root.view, os, q) {
        PassIffNoFailure(root.view, fn, os, q);
      }
      assert forall q :: FilterFails(root.view, fn, os, q) || WalkLoops(root.view, os, q) ==> q in ps;
      if outcome.Completed? {
        CopyEnd(root.view, fn, ps, newFS.root.view);
        AllCarried(root.view, fn, newFS.root.view);
      }
    }
  }
}
