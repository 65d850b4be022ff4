/** The mutable tree of pkg/mapfs/file.go: nodes on the heap whose `files` maps are
    stored into and deleted from. Every node carries, as ghost state, the value tree it
    stands for; each method changes that value exactly as the function of `MapTree` says. */
module MapFile {
  import opened Options
  import opened Bytes
  import T = MapTree

  /** `T.MkdirAll` in the order of the heap: load or store the child, then descend. */
  lemma MkdirThroughChild(t: T.Tree, p: T.Path, perm: T.Mode, sub: T.Tree)
    requires |p| > 1 && T.IsDir(sub)
    requires sub == if p[0] in t.files then t.files[p[0]] else T.Node(T.DirInfo(perm), map[])
    ensures T.MkdirAll(t, p, perm) ==
            var (sub', error) := T.MkdirAll(sub, p[1..], perm);
            (T.Put(T.Put(t, p[0], sub), p[0], sub'), error)
  {
    var sub' := T.MkdirAll(sub, p[1..], perm).0;
    assert t.files[p[0] := sub][p[0] := sub'] == t.files[p[0] := sub'];
  }

  class File {
    var underlying: string
    var data: seq<Byte>
    var mode: T.Mode
    var files: map<string, File>

    ghost var Repr: set<object>
    ghost var view: T.Tree

    ghost predicate Valid()
      reads this, Repr
      ensures Valid() ==> this in Repr
      decreases Repr
    {
      && this in Repr
      && (forall n :: n in files ==>
            files[n] in Repr && files[n].Repr <= Repr && this !in files[n].Repr && files[n].Valid())
      && (forall m, n :: m in files && n in files && m != n ==> files[m].Repr !! files[n].Repr)
      && view.info == T.Info(underlying, data, mode)
      && view.files.Keys == files.Keys
      && (forall n :: n in files ==> view.files[n] == files[n].view)
    }

    constructor (info: T.Info)
      ensures Valid() && fresh(Repr) && view == T.Node(info, map[]) && files == map[]
    {
      underlying, data, mode, files := info.underlying, info.data, info.mode, map[];
      Repr, view := {this}, T.Node(info, map[]);
    }

    /** `files.Store`: an earlier child of that name is dropped with all it contains. */
    method Attach(name: string, node: File)
      requires Valid() && node.Valid() && node.Repr !! Repr
      modifies this
      ensures Valid() && Repr == old(Repr) + node.Repr
      ensures view == T.Put(old(view), name, node.view)
      ensures files == old(files)[name := node]
    {
      files := files[name := node];
      view := T.Put(view, name, node.view);
      Repr := Repr + node.Repr;
    }

    /** `files.LoadOrStore` of a directory. */
    method LoadOrStore(name: string, perm: T.Mode) returns (sub: File)
      requires Valid()
      modifies this
      ensures Valid() && old(Repr) <= Repr && fresh(Repr - old(Repr))
      ensures name in files && files[name] == sub
      ensures name in old(files) ==> files == old(files) && view == old(view)
      ensures name !in old(files) ==> sub.view == T.Node(T.DirInfo(perm), map[])
      ensures view == T.Put(old(view), name, sub.view)
    {
      if name in files {
        sub := files[name];
        assert view.files[name := sub.view] == view.files;
      } else {
        sub := new File(T.DirInfo(perm));
        Attach(name, sub);
      }
    }

    /** `files.Delete`. */
    method Detach(name: string)
      requires Valid() && name in files
      modifies this
      ensures Valid() && Repr == old(Repr)
      ensures view == old(view).(files := old(view).files - {name})
    {
      files := files - {name};
      view := view.(files := view.files - {name});
    }

    /** Takes up what has changed in child `name`, while the other children stayed as they were. */
    ghost method Refresh(name: string)
      requires name in files && this in Repr && this !in files[name].Repr
      requires files[name].Valid()
      requires forall n :: n in files && n != name ==>
                 files[n] in Repr && files[n].Repr <= Repr && this !in files[n].Repr && files[n].Valid()
      requires forall m, n :: m in files && n in files && m != n ==> files[m].Repr !! files[n].Repr
      requires view.info == T.Info(underlying, data, mode) && view.files.Keys == files.Keys
      requires forall n :: n in files && n != name ==> view.files[n] == files[n].view
      modifies this`Repr, this`view
      ensures Valid() && Repr == old(Repr) + files[name].Repr
      ensures view == T.Put(old(view), name, files[name].view)
    {
      Repr := Repr + files[name].Repr;
      view := T.Put(view, name, files[name].view);
    }

    method GetFile(p: T.Path) returns (f: File?)
      requires Valid() && p != []
      ensures match T.GetFile(view, p)
              case None => f == null
              case Some(sub) => f != null && f in Repr && f.Repr <= Repr && f.Valid() && f.view == sub
      decreases |p|
    {
      if T.Self(p) {
        return this;
      }
      if p[0] !in files {
        return null;
      }
      var sub := files[p[0]];
      if |p| == 1 {
        return sub;
      }
      if !sub.mode.dir {
        return null;
      }
      f := sub.GetFile(p[1..]);
    }

    method MkdirAll(p: T.Path, perm: T.Mode) returns (error: Option<T.Error>)
      requires Valid() && p != []
      modifies Repr
      ensures Valid() && fresh(Repr - old(Repr))
      ensures (view, error) == T.MkdirAll(old(view), p, perm)
      decreases |p|, 0
    {
      if T.Self(p) {
        return None;
      }
      var sub := LoadOrStore(p[0], perm);
      if !sub.mode.dir {
        return Some(T.Exist);
      }
      if |p| == 1 {
        return None;
      }
      MkdirThroughChild(old(view), p, perm, sub.view);
      error := MkdirBelow(p[0], p[1..], perm);
    }

    method MkdirBelow(name: string, rest: T.Path, perm: T.Mode) returns (error: Option<T.Error>)
      requires Valid() && name in files && rest != []
      modifies Repr
      ensures Valid() && fresh(Repr - old(Repr))
      ensures var (sub', e) := T.MkdirAll(old(files[name].view), rest, perm);
              error == e && view == T.Put(old(view), name, sub')
      decreases |rest|, 1
    {
      error := files[name].MkdirAll(rest, perm);
      Refresh(name);
    }

    /** `WriteFile` and `WriteVirtualFile`. */
    method Store(p: T.Path, info: T.Info) returns (error: Option<T.Error>)
      requires Valid() && p != []
      modifies Repr
      ensures Valid() && fresh(Repr - old(Repr))
      ensures (view, error) == T.Store(old(view), p, info)
      decreases |p|
    {
      if |p| == 1 {
        var node := new File(info);
        Attach(p[0], node);
        return None;
      }
      if p[0] !in files || !files[p[0]].mode.dir {
        return Some(T.NotExist);
      }
      error := files[p[0]].Store(p[1..], info);
      Refresh(p[0]);
    }

    /** The last step of `removePath`. */
    method RemoveChild(name: string, recursive: bool) returns (error: Option<T.Error>)
      requires Valid() && name in files
      modifies this
      ensures Valid() && Repr == old(Repr)
      ensures error == if old(view).files[name].files != map[] && !recursive then Some(T.Invalid) else None
      ensures view == if error.Some? then old(view) else old(view).(files := old(view).files - {name})
    {
      var sub := files[name];
      assert sub.files == map[] <==> sub.view.files == map[] by {
        assert sub.files.Keys == sub.view.files.Keys;
      }
      if sub.files != map[] && !recursive {
        return Some(T.Invalid);
      }
      Detach(name);
      return None;
    }

    method RemovePath(p: T.Path, recursive: bool) returns (error: Option<T.Error>)
      requires Valid() && p != []
      modifies Repr
      ensures Valid() && fresh(Repr - old(Repr))
      ensures (view, error) == T.RemovePath(old(view), p, recursive)
      decreases |p|
    {
      if p[0] !in files {
        return Some(T.NotExist);
      }
      var sub := files[p[0]];
      if |p| == 1 {
        error := RemoveChild(p[0], recursive);
        return;
      }
      if !sub.mode.dir {
        return Some(T.NotExist);
      }
      error := sub.RemovePath(p[1..], recursive);
      Refresh(p[0]);
    }
  }
}
