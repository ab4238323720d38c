/** What a selection means (`src/select.rs`): which paths a tree of added paths
    selects, and which values of a document a projection hands out at which path. */
module Selected {
  import opened Values
  import opened Codec
  import opened Select

  /** Where a value is in a document: the names of the fields it is under. */
  type Path = seq<Name>

  function ValueAt(doc: Document, p: Path): (value: Option<Document>)
    decreases |p|
  {
    if p == [] then Some(doc)
    else if !doc.Object? || Lookup(doc.fields, p[0]).None? then None
    else ValueAt(Lookup(doc.fields, p[0]).value, p[1..])
  }

  /** The value there is selected: whole, or inside one selected whole. */
  predicate Chosen(node: Node, p: Path)
    decreases |p|
  {
    node.Whole? || (p != [] && Position(node.fields, p[0]).Some?
                    && Chosen(node.fields[Position(node.fields, p[0]).value].1, p[1..]))
  }

  // ----------------------------------------------------------------- paths added

  /** A path cut at its first step that reaches into an array. */
  function CutPath(path: seq<Step>): (p: Path) {
    if path == [] then [] else if path[0].fansOut then [path[0].name] else [path[0].name] + CutPath(path[1..])
  }

  /** A path names a value: it is there, or above; but `_id`, at the top, it does not. */
  predicate Names(path: seq<Step>, p: Path) {
    path == [] || (path[0].name != ID_FIELD && CutPath(path) <= p)
  }

  lemma {:induction false} PositionPut(fields: Tree, i: nat, field: (Name, Node), x: Name)
    requires i <= |fields| && (i < |fields| ==> Position(fields, field.0) == Some(i))
    requires i == |fields| ==> Position(fields, field.0).None?
    ensures Position(if i < |fields| then fields[i := field] else fields + [field], x)
         == if x == field.0 then Some(i) else Position(fields, x)
  {
    var after := if i < |fields| then fields[i := field] else fields + [field];
    var a, b := Position(after, x), Position(fields, x);
    assert after[i] == field;
    assert forall j :: 0 <= j < |fields| && j != i ==> after[j] == fields[j];
    if i < |fields| { assert fields[i].0 == field.0; }
  }

  lemma {:induction false} AddAtMeans(node: Node, path: seq<Step>, top: bool, p: Path)
    requires path != []
    ensures Chosen(AddAt(node, path, top), p)
       <==> Chosen(node, p) || (!(top && path[0].name == ID_FIELD) && CutPath(path) <= p)
    decreases |path|
  {
    if !node.Whole? && !(top && path[0].name == ID_FIELD) && p != [] {
      var name := path[0].name;
      var at := Position(node.fields, name);
      var i := if at.Some? then at.value else |node.fields|;
      var below := if at.Some? then node.fields[i].1 else Fields([]);
      var inner := if path[0].fansOut || |path| == 1 then Whole else AddAt(below, path[1..], false);
      AddedTree(node, path, top);
      PositionPut(node.fields, i, (name, inner), p[0]);
      if p[0] == name {
        NothingChosen(p[1..]);
        if !(path[0].fansOut || |path| == 1) {
          AddAtMeans(below, path[1..], false, p[1..]);
          assert CutPath(path) <= p <==> CutPath(path[1..]) <= p[1..] by { OneMoreName(name, CutPath(path[1..]), p); }
        } else {
          assert path[1..] == [] || path[0].fansOut;
          assert CutPath(path) == [name];
        }
      }
    }
  }

  lemma OneMoreName(name: Name, rest: Path, p: Path)
    requires p != [] && p[0] == name
    ensures [name] + rest <= p <==> rest <= p[1..]
  {
    assert p == [name] + p[1..];
  }

  lemma NothingChosen(p: Path)
    ensures !Chosen(Fields([]), p)
  {
  }

  /** Where the path goes in: in place of the field of its first name, or at the end. */
  lemma AddedTree(node: Node, path: seq<Step>, top: bool)
    requires path != [] && !node.Whole? && !(top && path[0].name == ID_FIELD)
    ensures var at := Position(node.fields, path[0].name);
            var i := if at.Some? then at.value else |node.fields|;
            var below := if at.Some? then node.fields[i].1 else Fields([]);
            var inner := if path[0].fansOut || |path| == 1 then Whole else AddAt(below, path[1..], false);
            AddAt(node, path, top)
              == Fields(if i < |node.fields| then node.fields[i := (path[0].name, inner)]
                        else node.fields + [(path[0].name, inner)])
  {
    var at := Position(node.fields, path[0].name);
    if at.None? {
      var inner := if path[0].fansOut || |path| == 1 then Whole else AddAt(Fields([]), path[1..], false);
      var more := node.fields + [(path[0].name, Fields([]))];
      assert more[|node.fields| := (path[0].name, inner)] == node.fields + [(path[0].name, inner)];
    }
  }

  /** A path added selects what was selected, and what it names. */
  lemma AddMeans(node: Node, path: seq<Step>, p: Path)
    ensures Chosen(Add(node, path), p) <==> Chosen(node, p) || Names(path, p)
  {
    if path != [] { AddAtMeans(node, path, true, p); }
  }

  /** The tree of paths, added in turn. */
  function TreeOf(paths: seq<seq<Step>>): (node: Node) {
    if paths == [] then Fields([]) else Add(TreeOf(paths[..|paths| - 1]), paths[|paths| - 1])
  }

  /** `new` and `excepting`: all there is, or the paths selected; less those excepted. */
  function SelectionOf(select_: Option<seq<seq<Step>>>, except: seq<seq<Step>>): (s: Selection) {
    Selection(if select_.None? then Whole else TreeOf(select_.value), TreeOf(except))
  }

  /** It selects what one of them names, and nothing else. */
  lemma {:induction false} TreeMeans(paths: seq<seq<Step>>, p: Path)
    ensures Chosen(TreeOf(paths), p) <==> exists path <- paths :: Names(path, p)
  {
    if paths == [] {
      NothingChosen(p);
    } else {
      var n := |paths| - 1;
      TreeMeans(paths[..n], p);
      AddMeans(TreeOf(paths[..n]), paths[n], p);
      hide Names, Chosen, Add;
      assert paths == paths[..n] + [paths[n]];
    }
  }

  lemma {:induction false} TreeIsOk(paths: seq<seq<Step>>)
    ensures TreeOk(TreeOf(paths)) && SparesId(TreeOf(paths))
  {
    if paths != [] {
      var n := |paths| - 1;
      TreeIsOk(paths[..n]);
      if paths[n] != [] { AddKeepsTree(TreeOf(paths[..n]), paths[n], true); }
    }
  }

  // ------------------------------------------------------------- what is handed out

  /** Something selected is there, or under it. */
  ghost predicate Reached(node: Node, doc: Document, p: Path) {
    exists q: Path :: ValueAt(doc, p + q).Some? && Chosen(node, p + q)
  }

  /** At `p` there is something just where the document has something and `present`
      says so: an object for an object, and the same value for anything else, or where
      it is handed out `whole`. */
  ghost predicate Handed(after: Option<Document>, doc: Document, p: Path, present: bool, whole: bool) {
    var w := if after.None? then None else ValueAt(after.value, p);
    && (w.Some? <==> ValueAt(doc, p).Some? && present)
    && (w.Some? ==> w.value.Object? == ValueAt(doc, p).value.Object?)
    && (w.Some? && (whole || !w.value.Object?) ==> w == ValueAt(doc, p))
  }

  lemma {:induction false} ValueAtJoin(doc: Document, p: Path, q: Path)
    ensures ValueAt(doc, p + q) == if ValueAt(doc, p).None? then None else ValueAt(ValueAt(doc, p).value, q)
    decreases |p|
  {
    if p == [] {
      assert p + q == q;
    } else {
      assert (p + q)[0] == p[0] && (p + q)[1..] == p[1..] + q;
      if doc.Object? && Lookup(doc.fields, p[0]).Some? { ValueAtJoin(Lookup(doc.fields, p[0]).value, p[1..], q); }
    }
  }

  lemma ReachedIsThere(node: Node, doc: Document, p: Path)
    ensures Reached(node, doc, p) ==> ValueAt(doc, p).Some?
    ensures ValueAt(doc, p).Some? && Chosen(node, p) ==> Reached(node, doc, p)
  {
    if Reached(node, doc, p) {
      var q: Path :| ValueAt(doc, p + q).Some? && Chosen(node, p + q);
      ValueAtJoin(doc, p, q);
    }
    assert p + [] == p;
  }

  /** One name down. */
  lemma ReachedUnder(fields: Tree, entries: seq<Entry>, name: Name, p: Path)
    requires Position(fields, name).Some? && Lookup(entries, name).Some?
    ensures var (i, value) := (Position(fields, name).value, Lookup(entries, name).value);
            Reached(Fields(fields), Object(entries), [name] + p) <==> Reached(fields[i].1, value, p)
  {
    var (i, value) := (Position(fields, name).value, Lookup(entries, name).value);
    forall q: Path
      ensures ValueAt(Object(entries), [name] + p + q) == ValueAt(value, p + q)
      ensures Chosen(Fields(fields), [name] + p + q) == Chosen(fields[i].1, p + q)
    {
      var all := [name] + p + q;
      assert all[0] == name && all[1..] == p + q;
    }
    hide ValueAt, Chosen;
    if Reached(fields[i].1, value, p) {
      var q: Path :| ValueAt(value, p + q).Some? && Chosen(fields[i].1, p + q);
      assert ValueAt(Object(entries), [name] + p + q).Some?;
    }
  }

  lemma NotReached(fields: Tree, entries: seq<Entry>, p: Path)
    requires p != [] && (Position(fields, p[0]).None? || Lookup(entries, p[0]).None?)
    ensures !Reached(Fields(fields), Object(entries), p)
  {
    forall q: Path ensures !(ValueAt(Object(entries), p + q).Some? && Chosen(Fields(fields), p + q)) {
      assert (p + q)[0] == p[0];
    }
  }

  lemma {:induction false} LookupAny(entries: seq<Entry>)
    ensures entries != [] <==> exists x: Name :: Lookup(entries, x).Some?
  {
    if entries != [] { assert Lookup(entries, entries[0].0).Some?; }
  }

  /** What is picked under a name: the slot of the field first named so. */
  lemma {:induction false} LookupPicked(entries: seq<Entry>, fields: Tree, i: nat, out: seq<Entry>, name: Name)
    requires i <= |fields|
    ensures var at := Position(fields, name);
            Lookup(Picked(entries, fields, i, out), name)
              == if at.Some? && at.value >= i && Slot(entries, fields, at.value).Some?
                 then Slot(entries, fields, at.value) else Lookup(out, name)
    decreases |fields| - i
  {
    if i < |fields| {
      var slot := Slot(entries, fields, i);
      LookupPicked(entries, fields, i + 1, Added(out, fields[i].0, slot), name);
      if slot.Some? { LookupInsert(out, fields[i].0, slot.value, name); }
      SlotIsFirst(entries, fields, i);
      hide Slot, Picked, Lookup, Insert;
    }
  }

  lemma SlotIsFirst(entries: seq<Entry>, fields: Tree, i: nat)
    requires i < |fields|
    ensures Slot(entries, fields, i).Some? ==> Position(fields, fields[i].0) == Some(i)
  {
  }

  lemma LookupCut(entries: seq<Entry>, fields: Tree, name: Name)
    ensures var at := Position(fields, name);
            Lookup(Picked(entries, fields, 0, []), name)
              == if at.None? || Lookup(entries, name).None? then None
                 else Cut(fields[at.value].1, Lookup(entries, name).value)
  {
    LookupPicked(entries, fields, 0, [], name);
    hide Picked, Cut;
  }

  /** A selection in part of one value. */
  lemma {:induction false} CutMeans(node: Node, doc: Document, p: Path)
    ensures Handed(Cut(node, doc), doc, p, Reached(node, doc, p), Chosen(node, p))
    decreases node, 1
  {
    ReachedIsThere(node, doc, p);
    if node.Fields? && !doc.Object? {
      NotInside(node, doc, p);
    } else if node.Fields? && p == [] {
      CutIsSome(node.fields, doc.fields);
    } else if node.Fields? {
      var (name, rest) := (p[0], p[1..]);
      assert p == [name] + rest;
      LookupCut(doc.fields, node.fields, name);
      var at := Position(node.fields, name);
      if at.None? || Lookup(doc.fields, name).None? {
        NotReached(node.fields, doc.fields, p);
        CutUnder(node.fields, doc.fields, name, rest);
      } else {
        var value := Lookup(doc.fields, name).value;
        ReachedUnder(node.fields, doc.fields, name, rest);
        CutMeans(node.fields[at.value].1, value, rest);
        CutUnder(node.fields, doc.fields, name, rest);
        hide Reached, Cut, Picked, Lookup;
      }
    }
  }

  lemma NotInside(node: Node, doc: Document, p: Path)
    requires node.Fields? && !doc.Object?
    ensures !Reached(node, doc, p) && Cut(node, doc) == None
  {
    forall q: Path ensures !(ValueAt(doc, p + q).Some? && Chosen(node, p + q)) {
      if p + q != [] { assert ValueAt(doc, p + q).None?; }
    }
  }

  /** What a cut object has under a name. */
  lemma CutUnder(fields: Tree, entries: seq<Entry>, name: Name, rest: Path)
    ensures var cut := Cut(Fields(fields), Object(entries));
            var under := Lookup(Picked(entries, fields, 0, []), name);
            (if cut.None? then None else ValueAt(cut.value, [name] + rest))
              == if under.None? then None else ValueAt(under.value, rest)
  {
    var picked := Picked(entries, fields, 0, []);
    LookupAny(picked);
    assert ([name] + rest)[0] == name && ([name] + rest)[1..] == rest;
    assert Cut(Fields(fields), Object(entries)) == if picked == [] then None else Some(Object(picked));
    hide Picked, Lookup, Cut;
  }

  /** An object with nothing selected under it is left out, and only that. */
  lemma CutIsSome(fields: Tree, entries: seq<Entry>)
    ensures Cut(Fields(fields), Object(entries)).Some? <==> Reached(Fields(fields), Object(entries), [])
    decreases Fields(fields), 0
  {
    var (node, doc) := (Fields(fields), Object(entries));
    var picked := Picked(entries, fields, 0, []);
    LookupAny(picked);
    assert Cut(node, doc).Some? <==> picked != [];
    hide Picked, Cut;
    if x: Name :| Lookup(picked, x).Some? {
      LookupCut(entries, fields, x);
      var i := Position(fields, x).value;
      var value := Lookup(entries, x).value;
      CutMeans(fields[i].1, value, []);
      assert Handed(Cut(fields[i].1, value), value, [], Reached(fields[i].1, value, []), Chosen(fields[i].1, []));
      ReachedUnder(fields, entries, x, []);
      assert [x] + [] == [x];
      ReachedAbove(node, doc, [x]);
    }
    if q: Path :| ValueAt(doc, [] + q).Some? && Chosen(node, [] + q) {
      assert [] + q == q && q != [];
      var x := q[0];
      LookupCut(entries, fields, x);
      var i := Position(fields, x).value;
      var value := Lookup(entries, x).value;
      ReachedIsThere(fields[i].1, value, q[1..]);
      ReachedAbove(fields[i].1, value, q[1..]);
      CutMeans(fields[i].1, value, []);
    }
  }

  lemma ReachedAbove(node: Node, doc: Document, p: Path)
    requires Reached(node, doc, p)
    ensures Reached(node, doc, [])
  {
    var q: Path :| ValueAt(doc, p + q).Some? && Chosen(node, p + q);
    assert [] + (p + q) == p + q;
  }

  // ------------------------------------------------------------------ what is excepted

  /** Nothing there or under it is excepted. */
  ghost predicate Untouched(node: Node, p: Path) {
    forall q: Path :: !Chosen(node, p + q)
  }

  lemma {:induction false} LookupLeft(entries: seq<Entry>, fields: Tree, name: Name)
    ensures var at := Position(fields, name);
            var value := Lookup(entries, name);
            Lookup(Left(entries, fields), name)
              == if at.None? || value.None? then value else Spared(fields[at.value], value.value)
    decreases |entries|
  {
    hide Position;
    if entries != [] {
      LookupLeft(entries[1..], fields, name);
      var at := Position(fields, name);
      if at.Some? && fields[at.value].1.Whole? && entries[0].0 == name {
        GoneLeft(entries[1..], fields, name);
      }
    }
  }

  lemma {:induction false} GoneLeft(entries: seq<Entry>, fields: Tree, name: Name)
    requires Position(fields, name).Some? && fields[Position(fields, name).value].1.Whole?
    ensures Lookup(Left(entries, fields), name).None?
    decreases |entries|
  {
    hide Position;
    if entries != [] { GoneLeft(entries[1..], fields, name); }
  }

  lemma {:induction false} SparedMeans(field: (Name, Node), value: Document, p: Path)
    ensures Handed(Spared(field, value), value, p, !Chosen(field.1, p), Untouched(field.1, p))
    decreases field.1, |p|, 1
  {
    if field.1.Fields? {
      if value.Object? && p != [] {
        LeftMeans(value.fields, field.1.fields, p);
      } else if value.Object? {
        if Untouched(field.1, []) {
          NeverChosen(field.1);
          LeftUntouched(value.fields, field.1.fields);
        }
        hide Left;
      } else {
        assert Spared(field, value) == Some(value);
      }
    }
  }

  lemma NeverChosen(node: Node)
    requires Untouched(node, [])
    ensures forall q: Path :: !Chosen(node, q)
  {
    forall q: Path ensures !Chosen(node, q) { assert [] + q == q; }
  }

  lemma {:induction false} LeftMeans(entries: seq<Entry>, fields: Tree, p: Path)
    requires p != []
    ensures Handed(Some(Object(Left(entries, fields))), Object(entries), p,
                   !Chosen(Fields(fields), p), Untouched(Fields(fields), p))
    decreases Fields(fields), |p|, 0
  {
    var (name, rest) := (p[0], p[1..]);
    LookupLeft(entries, fields, name);
    var at := Position(fields, name);
    var value := Lookup(entries, name);
    UntouchedUnder(fields, p);
    if at.Some? && value.Some? {
      SparedMeans(fields[at.value], value.value, rest);
    }
    hide Left, Lookup, Spared, Untouched;
  }

  lemma UntouchedUnder(fields: Tree, p: Path)
    requires p != []
    ensures var at := Position(fields, p[0]);
            at.Some? ==> (Untouched(Fields(fields), p) <==> Untouched(fields[at.value].1, p[1..]))
  {
    var at := Position(fields, p[0]);
    if at.Some? {
      forall q: Path ensures Chosen(Fields(fields), p + q) == Chosen(fields[at.value].1, p[1..] + q) {
        assert (p + q)[0] == p[0] && (p + q)[1..] == p[1..] + q;
      }
    }
  }

  lemma {:induction false} LeftUntouched(entries: seq<Entry>, fields: Tree)
    requires forall q: Path :: !Chosen(Fields(fields), q)
    ensures Left(entries, fields) == entries
    decreases Fields(fields), |entries|
  {
    if entries != [] {
      LeftUntouched(entries[1..], fields);
      var (name, value) := entries[0];
      var at := Position(fields, name);
      if at.Some? {
        var inner := fields[at.value].1;
        forall q: Path ensures !Chosen(inner, q) {
          var all := [name] + q;
          assert all[0] == name && all[1..] == q && !Chosen(Fields(fields), all);
        }
        assert !Chosen(inner, []);
        if value.Object? { LeftUntouched(value.fields, inner.fields); }
      }
    }
  }

  // -------------------------------------------------------------------- the projection

  /** Before the excepted paths are taken out. */
  function Picks(root: Node, doc: Document): (picked: Document) {
    if root.Whole? || !doc.Object? then doc
    else Object(Picked(Without(doc.fields, ID_FIELD), root.fields, 0, IdOf(doc.fields)))
  }

  lemma PicksMeans(root: Node, doc: Document, p: Path)
    requires p != [] && p[0] != ID_FIELD
    ensures Handed(Some(Picks(root, doc)), doc, p, Reached(root, doc, p), Chosen(root, p))
  {
    ReachedIsThere(root, doc, p);
    if root.Fields? && doc.Object? {
      var (name, rest) := (p[0], p[1..]);
      assert p == [name] + rest;
      LookupPicked(Without(doc.fields, ID_FIELD), root.fields, 0, IdOf(doc.fields), name);
      LookupWithout(doc.fields, ID_FIELD, name);
      var at := Position(root.fields, name);
      if at.None? || Lookup(doc.fields, name).None? {
        NotReached(root.fields, doc.fields, p);
        hide Picked, Without, Lookup, Reached;
      } else {
        ReachedUnder(root.fields, doc.fields, name, rest);
        CutMeans(root.fields[at.value].1, Lookup(doc.fields, name).value, rest);
        hide Picked, Without, Lookup, Reached, Cut;
      }
    }
  }

  lemma TakenOutMeans(except: Node, doc: Document, p: Path)
    requires p != [] && p[0] != ID_FIELD
    ensures Handed(Some(TakenOut(except, doc)), doc, p, !Chosen(except, p), Untouched(except, p))
  {
    if doc.Object? && except.Fields? {
      LeftMeans(doc.fields, except.fields, p);
    } else if doc.Object? && Lookup(doc.fields, ID_FIELD).Some? {
      LookupInsert([], ID_FIELD, Lookup(doc.fields, ID_FIELD).value, p[0]);
    }
  }

  /** What a projection hands out, at every path but `_id`'s. The document's value is
      there just if something selected is there or under it and it is not excepted; an
      object for an object, and any other value as it is; as it is too where it is
      selected and nothing in it is excepted. So an object with nothing selected under
      it is left out, and one emptied by what is excepted stays. */
  lemma ProjectMeans(s: Selection, doc: Document, p: Path)
    requires p != [] && p[0] != ID_FIELD
    ensures Handed(Some(Project(s, doc)), doc, p,
                   Reached(s.root, doc, p) && !Chosen(s.except, p),
                   Chosen(s.root, p) && Untouched(s.except, p))
  {
    PicksMeans(s.root, doc, p);
    TakenOutMeans(s.except, Picks(s.root, doc), p);
    assert Project(s, doc) == if s.root.Fields? && !doc.Object? then doc else TakenOut(s.except, Picks(s.root, doc));
    hide Picks, TakenOut, Project, Reached, Chosen, Untouched;
  }

  /** A single value at a path: handed out just if it is selected and not excepted. */
  lemma ProjectSingle(s: Selection, doc: Document, p: Path)
    requires p != [] && p[0] != ID_FIELD && ValueAt(doc, p).Some? && !ValueAt(doc, p).value.Object?
    ensures ValueAt(Project(s, doc), p)
         == if Chosen(s.root, p) && !Chosen(s.except, p) then ValueAt(doc, p) else None
  {
    ProjectMeans(s, doc, p);
    ReachedIsThere(s.root, doc, p);
    assert doc.Object?;
    if Reached(s.root, doc, p) {
      var q: Path :| ValueAt(doc, p + q).Some? && Chosen(s.root, p + q);
      ValueAtJoin(doc, p, q);
      assert q == [];
      assert p + q == p;
    }
    hide Project, Reached, Chosen;
  }

  /** From the paths as they are given: a single value is handed out just if some path
      selected names it, or none are selected, and none excepted does. */
  lemma SelectionHandsOut(select_: Option<seq<seq<Step>>>, except: seq<seq<Step>>, doc: Document, p: Path)
    requires p != [] && p[0] != ID_FIELD && ValueAt(doc, p).Some? && !ValueAt(doc, p).value.Object?
    ensures ValueAt(Project(SelectionOf(select_, except), doc), p)
         == if (select_.None? || exists path <- select_.value :: Names(path, p)) && !exists path <- except :: Names(path, p)
            then ValueAt(doc, p) else None
  {
    var s := SelectionOf(select_, except);
    TreeMeans(except, p);
    if select_.Some? { TreeMeans(select_.value, p); }
    assert select_.None? ==> Chosen(s.root, p);
    hide Project, ValueAt, TreeOf, Names, Chosen;
    ProjectSingle(s, doc, p);
  }

  /** `_id` is handed out always. */
  lemma IdIsHandedOut(s: Selection, doc: Document)
    requires doc.Object? && SparesId(s.root) && SparesId(s.except)
    ensures ValueAt(Project(s, doc), [ID_FIELD]) == ValueAt(doc, [ID_FIELD])
  {
    var picked := Picks(s.root, doc);
    if s.root.Fields? {
      LookupPicked(Without(doc.fields, ID_FIELD), s.root.fields, 0, IdOf(doc.fields), ID_FIELD);
    }
    assert Lookup(picked.fields, ID_FIELD) == Lookup(doc.fields, ID_FIELD);
    if s.except.Fields? {
      LookupLeft(picked.fields, s.except.fields, ID_FIELD);
    }
    hide Picked, Left, Without;
  }

  // -------------------------------------------------------------------- in which order

  /** The first `n` names are no field's; the others are fields' before the `i`th, in the
      fields' order. */
  ghost predicate InOrder(fields: Tree, out: seq<Entry>, n: nat, i: nat) {
    && n <= |out|
    && (forall j :: 0 <= j < n ==> Position(fields, out[j].0).None?)
    && (forall j :: n <= j < |out| ==> Position(fields, out[j].0).Some? && Position(fields, out[j].0).value < i)
    && (forall j, k :: n <= j < k < |out| ==> Position(fields, out[j].0).value < Position(fields, out[k].0).value)
  }

  lemma {:induction false} InsertLast(out: seq<Entry>, name: Name, value: Document)
    requires forall j :: 0 <= j < |out| ==> out[j].0 != name
    ensures Insert(out, name, value) == out + [(name, value)]
  {
    if out != [] {
      InsertLast(out[1..], name, value);
      assert out == [out[0]] + out[1..];
    }
  }

  /** Selected fields come in the order the selection first names them, after what was
      there. */
  lemma {:induction false} PickedInOrder(entries: seq<Entry>, fields: Tree, i: nat, out: seq<Entry>, n: nat)
    requires i <= |fields| && InOrder(fields, out, n, i)
    ensures InOrder(fields, Picked(entries, fields, i, out), n, |fields|)
    ensures Picked(entries, fields, i, out)[..n] == out[..n]
    decreases |fields| - i
  {
    if i < |fields| {
      var slot := Slot(entries, fields, i);
      SlotIsFirst(entries, fields, i);
      hide Slot, Position;
      if slot.Some? {
        InsertLast(out, fields[i].0, slot.value);
        hide Insert;
        PickedInOrder(entries, fields, i + 1, out + [(fields[i].0, slot.value)], n);
      } else {
        PickedInOrder(entries, fields, i + 1, out, n);
      }
    }
  }

  /** A projection of a selection has `_id` first, then the selected fields in the order
      first named. */
  lemma ProjectInOrder(root: Node, doc: Document)
    requires root.Fields? && SparesId(root) && doc.Object?
    ensures var fields := Picks(root, doc).fields;
            var n := if Lookup(doc.fields, ID_FIELD).Some? then 1 else 0;
            InOrder(root.fields, fields, n, |root.fields|) && (n == 1 ==> fields[0].0 == ID_FIELD)
  {
    var out := IdOf(doc.fields);
    hide Picked, Lookup, Position;
    PickedInOrder(Without(doc.fields, ID_FIELD), root.fields, 0, out, |out|);
  }
}
