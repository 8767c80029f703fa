/** Directory trees: recursive copy and byte totals, whatever the order of the listings. */
module Snapshot {
  import opened Keyed
  import opened TenantState

  /** What a directory entry is; `Other` is a symbolic link, a socket and the like. */
  datatype Node = File(data: seq<Byte>) | Dir(entries: seq<Row<string, Node>>) | Other

  /** What listing a directory gives, in whatever order the file system has. */
  type Listing = seq<Row<string, Node>>

  /** No directory lists a name twice. */
  predicate Tidy(es: Listing)
    decreases es, 1
  {
    Unique(es) && forall i :: 0 <= i < |es| ==> TidyEntry(es[i])
  }

  predicate TidyEntry(e: Row<string, Node>)
    decreases e, 0
  {
    e.body.Dir? ==> Tidy(e.body.entries)
  }

  // ---------------------------------------------------------------- recursive copy

  /** The directory `name` as the copy finds it after making sure it exists. */
  function DirAt(es: Listing, name: string): Listing {
    var n := Lookup(es, name);
    if n.Some? && n.value.Dir? then n.value.entries else []
  }

  /** One entry can be copied: a directory onto nothing or a directory whose entries it fits, a file
      onto nothing or a file; anything else is skipped. */
  predicate Fits(e: Row<string, Node>, dest: Listing)
    decreases e, 0
  {
    var n := Lookup(dest, e.key);
    match e.body
    case File(_) => n.None? || n.value.File?
    case Dir(s) => (n.None? || n.value.Dir?) && Compatible(s, DirAt(dest, e.key))
    case Other => true
  }

  predicate Compatible(src: Listing, dest: Listing)
    decreases src, 1
  {
    forall i :: 0 <= i < |src| ==> Fits(src[i], dest)
  }

  function Place(e: Row<string, Node>, dest: Listing): Listing
    decreases e, 0
  {
    match e.body
    case File(_) => Upsert(dest, e)
    case Dir(s) => Upsert(dest, Row(e.key, Dir(Overlay(s, DirAt(dest, e.key)))))
    case Other => dest
  }

  /** `src` copied over `dest`. */
  function Overlay(src: Listing, dest: Listing): Listing
    decreases src, 1
  {
    if src == [] then dest else Place(src[|src| - 1], Overlay(src[..|src| - 1], dest))
  }

  lemma TidyPrefix(es: Listing, n: nat)
    requires Tidy(es) && n <= |es|
    ensures Tidy(es[..n])
  {
  }

  lemma TidyAt(es: Listing, name: string)
    requires Tidy(es)
    ensures Tidy(DirAt(es, name))
  {
    var p := Position(es, name);
    assert p < |es| ==> TidyEntry(es[p]);
  }

  /** Placing an entry decides its own name and leaves every other name alone. */
  lemma PlaceLookup(e: Row<string, Node>, dest: Listing, name: string)
    ensures Lookup(Place(e, dest), name)
            == if name != e.key || e.body.Other? then Lookup(dest, name)
               else if e.body.File? then Some(e.body)
               else Some(Dir(Overlay(e.body.entries, DirAt(dest, e.key))))
  {
    match e.body
    case File(_) => UpsertIsUpdate(dest, e, name);
    case Dir(s) => UpsertIsUpdate(dest, Row(e.key, Dir(Overlay(s, DirAt(dest, e.key)))), name);
    case Other =>
  }

  lemma {:induction false} OverlayTidy(src: Listing, dest: Listing)
    requires Tidy(src) && Tidy(dest)
    ensures Tidy(Overlay(src, dest))
    decreases src, 1
  {
    if src == [] {
    } else {
      var init, e := src[..|src| - 1], src[|src| - 1];
      TidyPrefix(src, |src| - 1);
      OverlayTidy(init, dest);
      PlaceTidy(e, Overlay(init, dest));
    }
  }

  lemma {:induction false} PlaceTidy(e: Row<string, Node>, dest: Listing)
    requires TidyEntry(e) && Tidy(dest)
    ensures Tidy(Place(e, dest))
    decreases e, 0
  {
    var placed := Place(e, dest);
    if e.body.Dir? {
      TidyAt(dest, e.key);
      OverlayTidy(e.body.entries, DirAt(dest, e.key));
      UpsertIsUpdate(dest, Row(e.key, Dir(Overlay(e.body.entries, DirAt(dest, e.key)))), e.key);
    } else {
      UpsertIsUpdate(dest, e, e.key);
    }
    forall i | 0 <= i < |placed| ensures TidyEntry(placed[i]) {
      assert i < |dest| ==> TidyEntry(dest[i]);
    }
  }

  /** What a copy leaves under each name: the source's file, the source's directory copied over the
      destination's, and for every other name what the destination had. */
  lemma {:induction false} OverlayLookup(src: Listing, dest: Listing, name: string)
    requires Unique(src)
    ensures var n, o := Lookup(src, name), Overlay(src, dest);
            Lookup(o, name) == if n.None? || n.value.Other? then Lookup(dest, name)
                               else if n.value.File? then n
                               else Some(Dir(Overlay(n.value.entries, DirAt(dest, name))))
    decreases |src|
  {
    if src == [] {
    } else {
      var init, e := src[..|src| - 1], src[|src| - 1];
      assert src == init + [e];
      OverlayLookup(init, dest, name);
      OverlayLookup(init, dest, e.key);
      PlaceLookup(e, Overlay(init, dest), name);
      LastLookup(init, e, name);
      LastLookup(init, e, e.key);
    }
  }

  lemma LastLookup<T>(init: seq<Row<string, T>>, e: Row<string, T>, name: string)
    requires Unique(init + [e])
    ensures Lookup(init + [e], name) == if name == e.key then Some(e.body) else Lookup(init, name)
    ensures Lookup(init, e.key) == None
  {
    var all := init + [e];
    assert all[|init|] == e;
    assert forall i :: 0 <= i < |init| ==> all[i] == init[i];
    LookupAt(all, |init|);
    if Has(init, name) {
      LookupAt(all, Position(init, name));
    }
  }

  // ---------------------------------------------------------------- when a copy succeeds

  /** What stands at a path below a directory. */
  function NodeAt(es: Listing, path: seq<string>): Option<Node>
    requires path != []
    decreases |path|
  {
    if |path| == 1 then Lookup(es, path[0]) else NodeAt(DirAt(es, path[0]), path[1..])
  }

  /** A file would have to replace something else than a file, or a directory something else than a
      directory. */
  predicate Clash(from: Option<Node>, onto: Option<Node>) {
    from.Some? && onto.Some?
    && ((from.value.File? && !onto.value.File?) || (from.value.Dir? && !onto.value.Dir?))
  }

  ghost predicate NoClash(src: Listing, dest: Listing) {
    forall path: seq<string> :: path != [] ==> !Clash(NodeAt(src, path), NodeAt(dest, path))
  }

  lemma NodeBelow(es: Listing, name: string, path: seq<string>)
    requires path != []
    ensures NodeAt(es, [name] + path) == NodeAt(DirAt(es, name), path)
  {
    assert ([name] + path)[1..] == path;
  }

  lemma NothingBelow(path: seq<string>)
    requires path != []
    ensures NodeAt([], path) == None
    decreases |path|
  {
    if |path| > 1 {
      assert DirAt([], path[0]) == [];
      NothingBelow(path[1..]);
    }
  }

  /** Nothing under the name of `e` is in the way of copying it. */
  ghost predicate EntryIsClear(e: Row<string, Node>, dest: Listing) {
    !Clash(Some(e.body), Lookup(dest, e.key)) && (e.body.Dir? ==> NoClash(e.body.entries, DirAt(dest, e.key)))
  }

  lemma {:induction false} FitsExactlyWhen(e: Row<string, Node>, dest: Listing)
    requires TidyEntry(e)
    ensures Fits(e, dest) <==> EntryIsClear(e, dest)
    decreases e, 0
  {
    if e.body.Dir? {
      CompatibleExactlyWhen(e.body.entries, DirAt(dest, e.key));
    }
  }

  /** A copy meets no obstacle exactly when at no path a file would replace something else than a file,
      or a directory something else than a directory. */
  lemma {:induction false} CompatibleExactlyWhen(src: Listing, dest: Listing)
    requires Tidy(src)
    ensures Compatible(src, dest) <==> NoClash(src, dest)
    decreases src, 1
  {
    forall i | 0 <= i < |src| ensures Fits(src[i], dest) <==> EntryIsClear(src[i], dest) {
      assert TidyEntry(src[i]);
      FitsExactlyWhen(src[i], dest);
    }
    NoClashExactlyWhen(src, dest);
  }

  lemma NoClashExactlyWhen(src: Listing, dest: Listing)
    requires Unique(src)
    ensures NoClash(src, dest) <==> forall i :: 0 <= i < |src| ==> EntryIsClear(src[i], dest)
  {
    if NoClash(src, dest) {
      forall i | 0 <= i < |src| ensures EntryIsClear(src[i], dest) {
        NameIsClear(src, dest, i);
      }
    }
    if forall i :: 0 <= i < |src| ==> EntryIsClear(src[i], dest) {
      forall path: seq<string> | path != [] ensures !Clash(NodeAt(src, path), NodeAt(dest, path)) {
        PathIsClear(src, dest, path);
      }
    }
  }

  lemma PathIsClear(src: Listing, dest: Listing, path: seq<string>)
    requires path != [] && forall i :: 0 <= i < |src| ==> EntryIsClear(src[i], dest)
    ensures !Clash(NodeAt(src, path), NodeAt(dest, path))
  {
    var p := Position(src, path[0]);
    assert p < |src| ==> EntryIsClear(src[p], dest);
    if |path| > 1 && p < |src| && src[p].body.Dir? {
      assert NoClash(src[p].body.entries, DirAt(dest, path[0]));
      assert NodeAt(src, path) == NodeAt(src[p].body.entries, path[1..]);
    } else if |path| > 1 {
      NothingBelow(path[1..]);
    }
  }

  lemma NameIsClear(src: Listing, dest: Listing, i: nat)
    requires Unique(src) && i < |src| && NoClash(src, dest)
    ensures EntryIsClear(src[i], dest)
  {
    LookupAt(src, i);
    var name := src[i].key;
    assert !Clash(NodeAt(src, [name]), NodeAt(dest, [name]));
    if src[i].body.Dir? {
      forall path: seq<string> | path != []
        ensures !Clash(NodeAt(src[i].body.entries, path), NodeAt(DirAt(dest, name), path))
      {
        NodeBelow(src, name, path);
        NodeBelow(dest, name, path);
        assert !Clash(NodeAt(src, [name] + path), NodeAt(dest, [name] + path));
      }
    }
  }

  // ---------------------------------------------------------------- copying into nothing

  /** The part of a tree a copy takes along. */
  function Plain(es: Listing): Listing
    decreases es, 1
  {
    if es == [] then [] else Plain(es[..|es| - 1]) + PlainEntry(es[|es| - 1])
  }

  function PlainEntry(e: Row<string, Node>): Listing
    decreases e, 0
  {
    match e.body
    case File(_) => [e]
    case Dir(s) => [Row(e.key, Dir(Plain(s)))]
    case Other => []
  }

  lemma {:induction false} PlainNames(es: Listing, name: string)
    ensures Has(Plain(es), name) ==> Has(es, name)
    decreases |es|
  {
    if es == [] {
    } else {
      var init, e := es[..|es| - 1], es[|es| - 1];
      assert es == init + [e];
      PlainNames(init, name);
      HasAppend(init, [e], name);
      HasAppend(Plain(init), PlainEntry(e), name);
      assert Has([e], name) <==> e.key == name by { HasCons([e], name); }
    }
  }

  /** A copy into an empty directory always succeeds and reproduces the tree, order included,
      leaving out only what is neither file nor directory. */
  lemma {:induction false} CopyIntoEmpty(src: Listing)
    requires Tidy(src)
    ensures Compatible(src, []) && Overlay(src, []) == Plain(src)
    decreases src, 1
  {
    if src == [] {
    } else {
      var init, e := src[..|src| - 1], src[|src| - 1];
      TidyPrefix(src, |src| - 1);
      CopyIntoEmpty(init);
      assert TidyEntry(src[|src| - 1]);
      DirIntoEmpty(e);
      PlainNames(init, e.key);
      LastLookup(init, e, e.key);
      assert src == init + [e];
      PlaceNew(e, Plain(init));
      FitsLast(init, e, []);
    }
  }

  lemma PlaceNew(e: Row<string, Node>, dest: Listing)
    requires !Has(dest, e.key) && (e.body.Dir? ==> Overlay(e.body.entries, []) == Plain(e.body.entries))
    ensures Place(e, dest) == dest + PlainEntry(e)
  {
    assert DirAt(dest, e.key) == [];
  }

  lemma FitsLast(init: Listing, e: Row<string, Node>, dest: Listing)
    requires Compatible(init, dest) && Fits(e, dest)
    ensures Compatible(init + [e], dest)
  {
    forall i | 0 <= i < |init + [e]| ensures Fits((init + [e])[i], dest) {
      assert i < |init| ==> Fits(init[i], dest);
    }
  }

  lemma {:induction false} DirIntoEmpty(e: Row<string, Node>)
    requires TidyEntry(e)
    ensures Fits(e, [])
    ensures e.body.Dir? ==> Overlay(e.body.entries, []) == Plain(e.body.entries)
    decreases e, 0
  {
    if e.body.Dir? {
      CopyIntoEmpty(e.body.entries);
    }
  }

  // ---------------------------------------------------------------- byte totals

  /** The sizes of all regular files below a directory. */
  function Bytes(es: Listing): nat
    decreases es, 1
  {
    if es == [] then 0 else Bytes(es[..|es| - 1]) + EntryBytes(es[|es| - 1])
  }

  function EntryBytes(e: Row<string, Node>): nat
    decreases e, 0
  {
    match e.body
    case File(data) => |data|
    case Dir(s) => Bytes(s)
    case Other => 0
  }

  /** A file counts for its length, a directory for what is in it, anything else for nothing. */
  lemma BytesOfOne(name: string, data: seq<Byte>, es: Listing)
    ensures Bytes([Row(name, File(data))]) == |data|
    ensures Bytes([Row(name, Dir(es))]) == Bytes(es)
    ensures Bytes([Row(name, Other)]) == 0
  {
    BytesEnd([], Row(name, File(data)));
    BytesEnd([], Row(name, Dir(es)));
    BytesEnd([], Row(name, Other));
    assert [] + [Row(name, File(data))] == [Row(name, File(data))];
    assert [] + [Row(name, Dir(es))] == [Row(name, Dir(es))];
    assert [] + [Row(name, Other)] == [Row(name, Other)];
  }

  /** Bytes of the destination's files that a copy overwrites. */
  function Replaced(src: Listing, dest: Listing): nat
    decreases src, 1
  {
    if src == [] then 0 else Replaced(src[..|src| - 1], dest) + EntryReplaced(src[|src| - 1], dest)
  }

  function EntryReplaced(e: Row<string, Node>, dest: Listing): nat
    decreases e, 0
  {
    var n := Lookup(dest, e.key);
    match e.body
    case File(_) => if n.Some? && n.value.File? then |n.value.data| else 0
    case Dir(s) => Replaced(s, DirAt(dest, e.key))
    case Other => 0
  }

  lemma BytesEnd(es: Listing, e: Row<string, Node>)
    ensures Bytes(es + [e]) == Bytes(es) + EntryBytes(e)
  {
    assert (es + [e])[..|es|] == es;
  }

  lemma {:induction false} BytesUpdate(es: Listing, p: nat, e: Row<string, Node>)
    requires p < |es|
    ensures Bytes(es[p := e]) + EntryBytes(es[p]) == Bytes(es) + EntryBytes(e)
    decreases |es|
  {
    var init := es[..|es| - 1];
    if p < |init| {
      BytesUpdate(init, p, e);
      assert es[p := e][..|es| - 1] == init[p := e];
    } else {
      assert es[p := e][..|es| - 1] == init;
    }
  }

  lemma BytesUpsert(es: Listing, e: Row<string, Node>)
    ensures var p := Position(es, e.key);
            Bytes(Upsert(es, e)) + (if p < |es| then EntryBytes(es[p]) else 0) == Bytes(es) + EntryBytes(e)
  {
    var p := Position(es, e.key);
    if p < |es| {
      BytesUpdate(es, p, e);
    } else {
      BytesEnd(es, e);
    }
  }

  /** Conservation: what a successful copy leaves is what both sides held, less what it overwrote. */
  lemma {:induction false} CopyConservesBytes(src: Listing, dest: Listing)
    requires Tidy(src) && Tidy(dest) && Compatible(src, dest)
    ensures Bytes(Overlay(src, dest)) + Replaced(src, dest) == Bytes(src) + Bytes(dest)
    decreases src, 1
  {
    if src == [] {
    } else {
      var init, e := src[..|src| - 1], src[|src| - 1];
      assert src == init + [e];
      TidyPrefix(src, |src| - 1);
      assert Compatible(init, dest) by {
        forall i | 0 <= i < |init| ensures Fits(init[i], dest) {
          assert Fits(src[i], dest);
        }
      }
      CopyConservesBytes(init, dest);
      OverlayTidy(init, dest);
      LastLookup(init, e, e.key);
      OverlayLookup(init, dest, e.key);
      assert Fits(src[|src| - 1], dest) && TidyEntry(src[|src| - 1]);
      SameName(e, dest, Overlay(init, dest));
      PlaceConservesBytes(e, Overlay(init, dest));
    }
  }

  lemma SameName(e: Row<string, Node>, dest: Listing, dest': Listing)
    requires Lookup(dest, e.key) == Lookup(dest', e.key)
    ensures Fits(e, dest) <==> Fits(e, dest')
    ensures EntryReplaced(e, dest) == EntryReplaced(e, dest')
  {
  }

  lemma {:induction false} PlaceConservesBytes(e: Row<string, Node>, dest: Listing)
    requires TidyEntry(e) && Tidy(dest) && Fits(e, dest)
    ensures Bytes(Place(e, dest)) + EntryReplaced(e, dest) == EntryBytes(e) + Bytes(dest)
    decreases e, 0
  {
    match e.body
    case File(_) => BytesUpsert(dest, e);
    case Dir(s) =>
      TidyAt(dest, e.key);
      CopyConservesBytes(s, DirAt(dest, e.key));
      BytesUpsert(dest, Row(e.key, Dir(Overlay(s, DirAt(dest, e.key)))));
    case Other =>
  }

  // ---------------------------------------------------------------- whatever the listing order

  /** A directory as its names and what they stand for, without any order. */
  datatype Shape = FileShape(data: seq<Byte>) | DirShape(names: map<string, Shape>) | OtherShape

  function Shapes(es: Listing): map<string, Shape>
    decreases es, 1
  {
    if es == [] then map[] else Shapes(es[..|es| - 1])[es[|es| - 1].key := ShapeOf(es[|es| - 1])]
  }

  function ShapeOf(e: Row<string, Node>): Shape
    decreases e, 0
  {
    match e.body
    case File(data) => FileShape(data)
    case Dir(s) => DirShape(Shapes(s))
    case Other => OtherShape
  }

  /** Two listings of one directory, nested directories included. */
  predicate SameTree(a: Listing, b: Listing) {
    Tidy(a) && Tidy(b) && Shapes(a) == Shapes(b)
  }

  lemma {:induction false} ShapesAreLookups(es: Listing, name: string)
    requires Unique(es)
    ensures name in Shapes(es) <==> Has(es, name)
    ensures Has(es, name) ==> Lookup(es, name).Some? && Shapes(es)[name] == ShapeOf(Row(name, Lookup(es, name).value))
    decreases |es|
  {
    if es == [] {
    } else {
      var init, e := es[..|es| - 1], es[|es| - 1];
      assert es == init + [e];
      ShapesAreLookups(init, name);
      LastLookup(init, e, name);
      HasAppend(init, [e], name);
      assert Has([e], name) <==> e.key == name by { HasCons([e], name); }
    }
  }

  /** What two listings of one directory agree on under a name. */
  lemma SameUnder(a: Listing, b: Listing, name: string)
    requires SameTree(a, b)
    ensures var m, n := Lookup(a, name), Lookup(b, name);
            && (m.Some? <==> n.Some?)
            && (m.Some? ==> ShapeOf(Row(name, m.value)) == ShapeOf(Row(name, n.value)))
    ensures SameTree(DirAt(a, name), DirAt(b, name))
  {
    ShapesAreLookups(a, name);
    ShapesAreLookups(b, name);
    TidyAt(a, name);
    TidyAt(b, name);
  }

  lemma SameLookupsAreSameShapes(a: Listing, b: Listing)
    requires Tidy(a) && Tidy(b)
    requires forall name :: SameNode(Lookup(a, name), Lookup(b, name))
    ensures SameTree(a, b)
  {
    forall name ensures (name in Shapes(a) <==> name in Shapes(b)) && (name in Shapes(a) ==> Shapes(a)[name] == Shapes(b)[name]) {
      ShapesAreLookups(a, name);
      ShapesAreLookups(b, name);
      assert SameNode(Lookup(a, name), Lookup(b, name));
    }
    assert Shapes(a).Keys == Shapes(b).Keys;
  }

  predicate SameNode(m: Option<Node>, n: Option<Node>) {
    (m.Some? <==> n.Some?) && (m.Some? ==> ShapeOf(Row("", m.value)) == ShapeOf(Row("", n.value)))
  }

  /** The outcome of a copy depends on the two trees alone. */
  lemma {:induction false} CopyIgnoresOrder(a: Listing, a': Listing, b: Listing, b': Listing)
    requires SameTree(a, a') && SameTree(b, b')
    ensures Compatible(a, b) <==> Compatible(a', b')
    ensures SameTree(Overlay(a, b), Overlay(a', b'))
    decreases a, 1
  {
    OverlayTidy(a, b);
    OverlayTidy(a', b');
    forall name ensures SameNode(Lookup(Overlay(a, b), name), Lookup(Overlay(a', b'), name)) {
      NameIgnoresOrder(a, a', b, b', name);
    }
    SameLookupsAreSameShapes(Overlay(a, b), Overlay(a', b'));
    forall name ensures FitsUnder(a, b, name) <==> FitsUnder(a', b', name) {
      NameIgnoresOrder(a, a', b, b', name);
    }
    CompatibleByName(a, b);
    CompatibleByName(a', b');
  }

  /** What `a` lists under `name`, if anything, can be copied. */
  predicate FitsUnder(a: Listing, b: Listing, name: string) {
    var n := Lookup(a, name);
    n.Some? ==> Fits(Row(name, n.value), b)
  }

  lemma CompatibleByName(a: Listing, b: Listing)
    requires Tidy(a)
    ensures Compatible(a, b) <==> forall name :: FitsUnder(a, b, name)
  {
    if Compatible(a, b) {
      forall name ensures FitsUnder(a, b, name) {
        var p := Position(a, name);
        if p < |a| {
          assert Fits(a[p], b) && a[p] == Row(name, a[p].body);
        }
      }
    }
    if forall name :: FitsUnder(a, b, name) {
      forall i | 0 <= i < |a| ensures Fits(a[i], b) {
        LookupAt(a, i);
        assert FitsUnder(a, b, a[i].key) && a[i] == Row(a[i].key, a[i].body);
      }
    }
  }

  lemma {:induction false} NameIgnoresOrder(a: Listing, a': Listing, b: Listing, b': Listing, name: string)
    requires SameTree(a, a') && SameTree(b, b')
    ensures SameNode(Lookup(Overlay(a, b), name), Lookup(Overlay(a', b'), name))
    ensures FitsUnder(a, b, name) <==> FitsUnder(a', b', name)
    decreases a, 0
  {
    SameUnder(a, a', name);
    SameUnder(b, b', name);
    var p := Position(a, name);
    if p < |a| && a[p].body.Dir? {
      assert TidyEntry(a[p]);
      EntryIgnoresOrder(a[p], DirAt(a', name), DirAt(b, name), DirAt(b', name));
    }
    OverlaySameUnder(a, a', b, b', name);
    FitsSameUnder(a, a', b, b', name);
  }

  /** The copies of what two listings of one directory have under `name`, when it is a directory. */
  predicate SubtreesAgree(a: Listing, a': Listing, b: Listing, b': Listing, name: string) {
    var n := Lookup(a, name);
    n.Some? && n.value.Dir? ==>
      && SameTree(Overlay(n.value.entries, DirAt(b, name)), Overlay(DirAt(a', name), DirAt(b', name)))
      && (Compatible(n.value.entries, DirAt(b, name)) <==> Compatible(DirAt(a', name), DirAt(b', name)))
  }

  lemma OverlaySameUnder(a: Listing, a': Listing, b: Listing, b': Listing, name: string)
    requires SameTree(a, a') && SameTree(b, b') && SubtreesAgree(a, a', b, b', name)
    ensures SameNode(Lookup(Overlay(a, b), name), Lookup(Overlay(a', b'), name))
  {
    SameUnder(a, a', name);
    SameUnder(b, b', name);
    OverlayLookup(a, b, name);
    OverlayLookup(a', b', name);
  }

  lemma FitsSameUnder(a: Listing, a': Listing, b: Listing, b': Listing, name: string)
    requires SameTree(a, a') && SameTree(b, b') && SubtreesAgree(a, a', b, b', name)
    ensures FitsUnder(a, b, name) <==> FitsUnder(a', b', name)
  {
    SameUnder(a, a', name);
    SameUnder(b, b', name);
  }

  lemma {:induction false} EntryIgnoresOrder(e: Row<string, Node>, s': Listing, b: Listing, b': Listing)
    requires e.body.Dir? && SameTree(e.body.entries, s') && SameTree(b, b')
    ensures Compatible(e.body.entries, b) <==> Compatible(s', b')
    ensures SameTree(Overlay(e.body.entries, b), Overlay(s', b'))
    decreases e, 0
  {
    CopyIgnoresOrder(e.body.entries, s', b, b');
  }

  /** So do the byte totals. */
  lemma {:induction false} BytesIgnoreOrder(a: Listing, b: Listing)
    requires SameTree(a, b)
    ensures Bytes(a) == Bytes(b)
    decreases a, 1
  {
    if a == [] {
      if b != [] {
        LastIsShaped(b);
      }
    } else {
      var init, e := a[..|a| - 1], a[|a| - 1];
      var p := Position(b, e.key);
      SameUnder(a, b, e.key);
      LookupAt(a, |a| - 1);
      var rest := b[..p] + b[p + 1..];
      WithoutOne(a, b, p);
      BytesIgnoreOrder(init, rest);
      BytesSplit(b, p);
      assert TidyEntry(a[|a| - 1]) && TidyEntry(b[p]);
      EntryBytesIgnoreOrder(e, b[p]);
    }
  }

  lemma {:induction false} EntryBytesIgnoreOrder(e: Row<string, Node>, f: Row<string, Node>)
    requires TidyEntry(e) && TidyEntry(f) && ShapeOf(Row("", e.body)) == ShapeOf(Row("", f.body))
    ensures EntryBytes(e) == EntryBytes(f)
    decreases e, 0
  {
    if e.body.Dir? {
      BytesIgnoreOrder(e.body.entries, f.body.entries);
    }
  }

  lemma LastIsShaped(es: Listing)
    requires es != []
    ensures es[|es| - 1].key in Shapes(es)
  {
  }

  lemma WithoutEnd<T>(es: seq<T>, p: nat)
    requires p < |es| - 1
    ensures var init := es[..|es| - 1];
            es[..p] + es[p + 1..] == (init[..p] + init[p + 1..]) + [es[|es| - 1]]
  {
  }

  lemma BytesSplit(es: Listing, p: nat)
    requires p < |es|
    ensures Bytes(es) == Bytes(es[..p] + es[p + 1..]) + EntryBytes(es[p])
    decreases |es|
  {
    var init, e := es[..|es| - 1], es[|es| - 1];
    if p == |init| {
      assert es[..p] + es[p + 1..] == init;
    } else {
      BytesSplit(init, p);
      WithoutEnd(es, p);
      BytesEnd(init[..p] + init[p + 1..], e);
    }
  }

  lemma TidyWithout(b: Listing, p: nat)
    requires Tidy(b) && p < |b|
    ensures Tidy(b[..p] + b[p + 1..])
  {
    var rest := b[..p] + b[p + 1..];
    assert forall i :: 0 <= i < |rest| ==> rest[i] == b[if i < p then i else i + 1];
    forall i | 0 <= i < |rest| ensures TidyEntry(rest[i]) {
      assert TidyEntry(b[if i < p then i else i + 1]);
    }
  }

  /** Taking one name out of both listings leaves listings of one directory. */
  lemma WithoutOne(a: Listing, b: Listing, p: nat)
    requires SameTree(a, b) && a != [] && p < |b| && b[p].key == a[|a| - 1].key
    ensures SameTree(a[..|a| - 1], b[..p] + b[p + 1..])
  {
    var init, e, rest := a[..|a| - 1], a[|a| - 1], b[..p] + b[p + 1..];
    TidyPrefix(a, |a| - 1);
    TidyWithout(b, p);
    assert a == init + [e];
    forall name ensures SameNode(Lookup(init, name), Lookup(rest, name)) {
      SameUnder(a, b, name);
      LastLookup(init, e, name);
      LookupWithout(b, p, name);
    }
    SameLookupsAreSameShapes(init, rest);
  }

  lemma LookupWithout(b: Listing, p: nat, name: string)
    requires Unique(b) && p < |b|
    ensures Lookup(b[..p] + b[p + 1..], name) == if name == b[p].key then None else Lookup(b, name)
  {
    var rest := b[..p] + b[p + 1..];
    assert forall i :: 0 <= i < |rest| ==> rest[i] == b[if i < p then i else i + 1];
    assert forall i :: 0 <= i < |rest| ==> rest[i].key != b[p].key;
    if name != b[p].key && Has(b, name) {
      var q := Position(b, name);
      var r := if q < p then q else q - 1;
      assert rest[r] == b[q];
      LookupAt(rest, r);
      LookupAt(b, q);
    } else if name != b[p].key {
      assert forall i :: 0 <= i < |rest| ==> Has(b, rest[i].key);
    }
  }

  // ---------------------------------------------------------------- the loops

  lemma CopyNext(src: Listing, i: nat, dest: Listing)
    requires Tidy(src) && i < |src| && Compatible(src[..i], dest)
    ensures Overlay(src[..i + 1], dest) == Place(src[i], Overlay(src[..i], dest))
    ensures Lookup(Overlay(src[..i], dest), src[i].key) == Lookup(dest, src[i].key)
    ensures Compatible(src[..i + 1], dest) <==> Fits(src[i], dest)
  {
    var init, e := src[..i], src[i];
    assert src[..i + 1] == init + [e] && src[..i + 1][..i] == init;
    assert Unique(init + [e]);
    LastLookup(init, e, e.key);
    OverlayLookup(init, dest, e.key);
    forall j | 0 <= j < |init| ensures Fits((init + [e])[j], dest) {
      assert Fits(init[j], dest);
    }
    assert Fits((init + [e])[i], dest) == Fits(e, dest);
  }

  /** A directory left half-copied disturbs nothing but its own name. */
  lemma PartialDir(copied: Listing, key: string, sub: Listing)
    requires Tidy(copied) && Tidy(sub)
    ensures var left := Upsert(copied, Row(key, Dir(sub)));
            Tidy(left) && forall name :: name != key ==> Lookup(left, name) == Lookup(copied, name)
  {
    var row := Row(key, Dir(sub));
    var left := Upsert(copied, row);
    UpsertIsUpdate(copied, row, key);
    forall j | 0 <= j < |left| ensures TidyEntry(left[j]) {
      assert j < |copied| ==> TidyEntry(copied[j]);
    }
    forall name | name != key ensures Lookup(left, name) == Lookup(copied, name) {
      UpsertIsUpdate(copied, row, name);
    }
  }

  lemma OneMisfit(src: Listing, i: nat, dest: Listing)
    requires i < |src| && !Fits(src[i], dest)
    ensures !Compatible(src, dest)
  {
  }

  /** Entry `at` is the first that cannot be copied; those before it are copied, and only its own
      name may be disturbed besides. */
  ghost predicate CopiedUpTo(src: Listing, dest: Listing, copied: Listing, at: nat) {
    && at < |src| && Compatible(src[..at], dest) && !Fits(src[at], dest)
    && forall name :: name != src[at].key ==> Lookup(copied, name) == Lookup(Overlay(src[..at], dest), name)
  }

  /** Copy the contents of `src` into `dest`, one entry at a time, stopping at the first that cannot
      be copied; what was copied before it stays. */
  method CopyDirContents(src: Listing, dest: Listing) returns (ok: bool, copied: Listing, ghost at: nat)
    requires Tidy(src) && Tidy(dest)
    ensures Tidy(copied)
    ensures ok <==> Compatible(src, dest)
    ensures ok ==> copied == Overlay(src, dest)
    ensures !ok ==> CopiedUpTo(src, dest, copied, at)
    decreases Dir(src)
  {
    copied, at := dest, 0;
    for i := 0 to |src|
      invariant at == i && Tidy(copied)
      invariant copied == Overlay(src[..i], dest)
      invariant Compatible(src[..i], dest)
    {
      var e := src[i];
      CopyNext(src, i, dest);
      SameName(e, dest, copied);
      assert TidyEntry(src[i]);
      PlaceTidy(e, copied);
      var there := Lookup(copied, e.key);
      match e.body {
        case Dir(entries) =>
          if there.Some? && !there.value.Dir? {
            OneMisfit(src, i, dest);
            return false, copied, at;
          }
          TidyAt(copied, e.key);
          var sub;
          ghost var subAt;
          ok, sub, subAt := CopyDirContents(entries, DirAt(copied, e.key));
          if !ok {
            OneMisfit(src, i, dest);
            PartialDir(copied, e.key, sub);
            copied := Upsert(copied, Row(e.key, Dir(sub)));
            return;
          }
          copied := Upsert(copied, Row(e.key, Dir(sub)));
        case File(_) =>
          if there.Some? && !there.value.File? {
            OneMisfit(src, i, dest);
            return false, copied, at;
          }
          copied := Upsert(copied, e);
        case Other =>
      }
      at := at + 1;
    }
    ok := true;
    assert src[..|src|] == src;
  }

  /** Whether the entry at a path, given from the tenant directory down, can be examined and, when
      it is a directory, listed. */
  type Access = seq<string> -> bool

  /** The part of a tree that can be examined. */
  function Visible(es: Listing, at: seq<string>, access: Access): Listing
    decreases es, 1
  {
    if es == [] then []
    else Visible(es[..|es| - 1], at, access) + VisibleEntry(es[|es| - 1], at, access)
  }

  function VisibleEntry(e: Row<string, Node>, at: seq<string>, access: Access): Listing
    decreases e, 0
  {
    if !access(at + [e.key]) then []
    else match e.body
         case Dir(s) => [Row(e.key, Dir(Visible(s, at + [e.key], access)))]
         case _ => [e]
  }

  /** What an entry adds to the total: nothing when it cannot be examined. */
  function VisibleEntryBytes(e: Row<string, Node>, at: seq<string>, access: Access): nat {
    if !access(at + [e.key]) then 0
    else match e.body
         case File(data) => |data|
         case Dir(s) => Bytes(Visible(s, at + [e.key], access))
         case Other => 0
  }

  lemma VisibleBytesNext(es: Listing, at: seq<string>, access: Access)
    requires es != []
    ensures Bytes(Visible(es, at, access))
            == Bytes(Visible(es[..|es| - 1], at, access)) + VisibleEntryBytes(es[|es| - 1], at, access)
  {
    var init, e := es[..|es| - 1], es[|es| - 1];
    var before, shown := Visible(init, at, access), VisibleEntry(e, at, access);
    if shown == [] {
      assert before + shown == before;
    } else {
      assert shown == [shown[0]];
      BytesEnd(before, shown[0]);
    }
  }

  /** An entry is asked for under its whole path: a file in a directory counts exactly when both the
      directory and the file in it can be examined. */
  lemma NestedFile(name: string, inner: string, data: seq<Byte>, at: seq<string>, access: Access)
    ensures Bytes(Visible([Row(name, Dir([Row(inner, File(data))]))], at, access))
            == if access(at + [name]) && access(at + [name] + [inner]) then |data| else 0
  {
    OneVisible(Row(inner, File(data)), at + [name], access);
    OneVisible(Row(name, Dir([Row(inner, File(data))])), at, access);
  }

  lemma OneVisible(e: Row<string, Node>, at: seq<string>, access: Access)
    ensures Bytes(Visible([e], at, access)) == VisibleEntryBytes(e, at, access)
  {
    VisibleBytesNext([e], at, access);
    assert [e][..0] == [];
  }

  lemma VisibleBytesTo(es: Listing, i: nat, at: seq<string>, access: Access)
    requires i < |es|
    ensures Bytes(Visible(es[..i + 1], at, access))
            == Bytes(Visible(es[..i], at, access)) + VisibleEntryBytes(es[i], at, access)
  {
    assert es[..i + 1][..i] == es[..i];
    VisibleBytesNext(es[..i + 1], at, access);
  }

  /** Where everything can be examined, nothing is missing from the total; otherwise it is at most
      too small. */
  lemma {:induction false} VisibleBytes(es: Listing, at: seq<string>, access: Access)
    ensures Bytes(Visible(es, at, access)) <= Bytes(es)
    ensures (forall p :: access(p)) ==> Bytes(Visible(es, at, access)) == Bytes(es)
    decreases es, 1
  {
    if es == [] {
    } else {
      VisibleBytes(es[..|es| - 1], at, access);
      VisibleBytesNext(es, at, access);
      VisibleBytesOf(es[|es| - 1], at, access);
    }
  }

  lemma {:induction false} VisibleBytesOf(e: Row<string, Node>, at: seq<string>, access: Access)
    ensures VisibleEntryBytes(e, at, access) <= EntryBytes(e)
    ensures (forall p :: access(p)) ==> VisibleEntryBytes(e, at, access) == EntryBytes(e)
    decreases e, 0
  {
    if e.body.Dir? {
      VisibleBytes(e.body.entries, at + [e.key], access);
    }
  }

  /** `bytes_on_disk`: a missing directory, and whatever below it cannot be examined or listed, counts
      for nothing. */
  method SumDirBytes(dir: Option<Listing>, at: seq<string>, access: Access) returns (total: nat)
    ensures total == if dir.Some? && access(at) then Bytes(Visible(dir.value, at, access)) else 0
    decreases if dir.Some? then Dir(dir.value) else Other
  {
    total := 0;
    if dir.None? || !access(at) {
      return;
    }
    var entries := dir.value;
    for i := 0 to |entries|
      invariant total == Bytes(Visible(entries[..i], at, access))
    {
      var e := entries[i];
      VisibleBytesTo(entries, i, at, access);
      match e.body {
        case File(data) =>
          if access(at + [e.key]) {
            total := total + |data|;
          }
        case Dir(es) =>
          var sub := SumDirBytes(Some(es), at + [e.key], access);
          total := total + sub;
        case Other =>
      }
    }
    assert entries[..|entries|] == entries;
  }
}
