/**
 What a lookup of the path scanners (fs/name_inode.c:258-266) is: find_entry on the directory.
 */
module NameLookup {
  import opened Basics
  import opened Directory
  import opened PathNames

  /** A component as bytes; it fits an entry when it has 1 to 14 of them and none is 0. */
  predicate Nameable(name: string) {
    1 <= |name| <= MAX_NAME_LEN && forall i :: 0 <= i < |name| ==> 0 < name[i] as int < 256
  }

  function Bytes(name: string): (b: seq<Byte>)
    requires Nameable(name)
    ensures ValidName(b) && |b| == |name|
  {
    seq(|name|, i requires 0 <= i < |name| => name[i] as int)
  }

  /** Different components are different names. */
  lemma BytesDiffer(a: string, b: string)
    requires Nameable(a) && Nameable(b) && Bytes(a) == Bytes(b)
    ensures a == b
  {
    forall i | 0 <= i < |a| ensures a[i] == b[i] {
      assert Bytes(a)[i] == Bytes(b)[i];
    }
  }

  /** The tree of lookups is what the directories bind. */
  ghost predicate TreeIs(tree: Tree, dirs: map<nat, Dir>)
    reads dirs.Values
  {
    forall d, name :: Agrees(tree, dirs, d, name)
  }

  ghost predicate Agrees(tree: Tree, dirs: map<nat, Dir>, d: nat, name: string)
    reads dirs.Values
  {
    d in dirs && Nameable(name) ==>
      && ((d, name) in tree <==> Bytes(name) in dirs[d].names)
      && ((d, name) in tree ==> tree[(d, name)] == dirs[d].names[Bytes(name)])
  }

  /** One step of get_last_dir: find_entry decides the lookup. */
  method LookUp(dirs: map<nat, Dir>, ghost tree: Tree, d: nat, name: string) returns (r: Option<nat>)
    requires TreeIs(tree, dirs) && d in dirs && dirs[d].Valid() && Nameable(name)
    ensures r == Find(tree, d, name)
  {
    assert Agrees(tree, dirs, d, name);
    var found, at := dirs[d].FindEntry(Bytes(name));
    r := if found then Some(dirs[d].slots[at].inode) else None;
  }
}
