/** The tree cleaning done before a source object is digested, described from outside: which
    places of a tree it removes, and that it keeps everything else. */
module FleetDigest {
  import opened Options

  datatype Json =
    | Null
    | Bool(b: bool)
    | Number(n: int)
    | Text(s: string)
    | Array(items: seq<Json>)
    | Object(fields: map<string, Json>)

  const BOOKKEEPING: set<string> := {"resourceVersion", "managedFields"}

  /** The keys to drop from the value stored under key k of an object. */
  function DroppedUnder(k: string): set<string> {
    if k == "metadata" then BOOKKEEPING else {}
  }

  /** Cleaning a value whose enclosing object asked for some keys to be dropped first. */
  function Clean(v: Json, dropped: set<string>): Json {
    match v
    case Object(fields) =>
      Object(map k | k in fields && k !in dropped && !("metadata" in fields && k == "status")
               :: Clean(fields[k], DroppedUnder(k)))
    case Array(items) => Array(seq(|items|, i requires 0 <= i < |items| => Clean(items[i], {})))
    case _ => v
  }

  datatype Key = Field(name: string) | Index(i: nat)

  /** What stands at a place, apart from what is below it. */
  datatype Label = Scalar(v: Json) | List(length: nat) | Record

  function Child(v: Json, key: Key): Option<Json> {
    match key
    case Field(name) => if v.Object? && name in v.fields then Some(v.fields[name]) else None
    case Index(i) => if v.Array? && i < |v.items| then Some(v.items[i]) else None
  }

  function Node(v: Json, path: seq<Key>): Option<Json> {
    if path == [] then Some(v)
    else
      var child := Child(v, path[0]);
      if child.None? then None else Node(child.value, path[1..])
  }

  function LabelOf(v: Json): Label {
    match v
    case Object(_) => Record
    case Array(items) => List(|items|)
    case _ => Scalar(v)
  }

  function Content(v: Json, path: seq<Key>): Option<Label> {
    var node := Node(v, path);
    if node.Some? then Some(LabelOf(node.value)) else None
  }

  /** Step n of the path enters the status of a metadata-bearing object, or the resource version
      or managed fields of its metadata. */
  predicate BookkeepingAt(v: Json, path: seq<Key>, n: nat)
    requires n < |path|
  {
    || (path[n] == Field("status") && Node(v, path[..n] + [Field("metadata")]).Some?)
    || (n > 0 && path[n - 1] == Field("metadata")
        && (path[n] == Field("resourceVersion") || path[n] == Field("managedFields")))
  }

  ghost predicate Bookkeeping(v: Json, path: seq<Key>) {
    exists n | 0 <= n < |path| :: BookkeepingAt(v, path, n)
  }

  ghost predicate Removed(v: Json, dropped: set<string>, path: seq<Key>) {
    || (path != [] && path[0].Field? && path[0].name in dropped)
    || Bookkeeping(v, path)
  }

  lemma BookkeepingShift(v: Json, path: seq<Key>, n: nat)
    requires 0 < n < |path| && Child(v, path[0]).Some?
    ensures BookkeepingAt(v, path, n) <==>
            || BookkeepingAt(Child(v, path[0]).value, path[1..], n - 1)
            || (n == 1 && path[0] == Field("metadata") && path[1].Field? && path[1].name in BOOKKEEPING)
  {
    var at := path[..n] + [Field("metadata")];
    assert at[1..] == path[1..][..n - 1] + [Field("metadata")];
    assert at[0] == path[0];
  }

  /** Below the first step, a place is removed exactly when the child's own cleaning removes it. */
  lemma RemovedBelow(v: Json, path: seq<Key>)
    requires path != [] && Child(v, path[0]).Some?
    ensures var dropped := if path[0].Field? then DroppedUnder(path[0].name) else {};
            Bookkeeping(v, path) <==>
              BookkeepingAt(v, path, 0) || Removed(Child(v, path[0]).value, dropped, path[1..])
  {
    var child := Child(v, path[0]).value;
    forall n | 0 < n < |path|
      ensures BookkeepingAt(v, path, n) <==>
              || BookkeepingAt(child, path[1..], n - 1)
              || (n == 1 && path[0] == Field("metadata") && path[1].Field? && path[1].name in BOOKKEEPING)
    {
      BookkeepingShift(v, path, n);
    }
    if Removed(child, if path[0].Field? then DroppedUnder(path[0].name) else {}, path[1..]) {
      if Bookkeeping(child, path[1..]) {
        var n :| 0 <= n < |path[1..]| && BookkeepingAt(child, path[1..], n);
        assert BookkeepingAt(v, path, n + 1);
      } else {
        assert BookkeepingAt(v, path, 1);
      }
    }
    if Bookkeeping(v, path) && !BookkeepingAt(v, path, 0) {
      var n :| 0 <= n < |path| && BookkeepingAt(v, path, n);
      assert BookkeepingAt(child, path[1..], n - 1) || n == 1;
    }
  }

  lemma FirstStep(v: Json, dropped: set<string>, key: Key)
    ensures var gone := (key.Field? && key.name in dropped) || BookkeepingAt(v, [key], 0);
            var below := if key.Field? then DroppedUnder(key.name) else {};
            Child(Clean(v, dropped), key) ==
            if gone || Child(v, key).None? then None else Some(Clean(Child(v, key).value, below))
  {
    assert [key][..0] + [Field("metadata")] == [Field("metadata")];
    assert Node(v, [Field("metadata")]) == Child(v, Field("metadata"));
  }

  /** Cleaning removes exactly the bookkeeping places and keeps everything else, at any depth. */
  lemma {:induction false} CleanRemovesOnlyBookkeeping(v: Json, dropped: set<string>, path: seq<Key>)
    ensures Content(Clean(v, dropped), path)
         == if Removed(v, dropped, path) then None else Content(v, path)
    decreases |path|
  {
    if path != [] {
      var key := path[0];
      FirstStep(v, dropped, key);
      assert path[..0] + [Field("metadata")] == [key][..0] + [Field("metadata")];
      assert BookkeepingAt(v, path, 0) == BookkeepingAt(v, [key], 0);
      if Child(v, key).Some? {
        RemovedBelow(v, path);
        var below := if key.Field? then DroppedUnder(key.name) else {};
        CleanRemovesOnlyBookkeeping(Child(v, key).value, below, path[1..]);
      }
    }
  }

  lemma ContentBelow(v: Json, key: Key, path: seq<Key>)
    ensures Content(v, [key] + path)
         == if Child(v, key).None? then None else Content(Child(v, key).value, path)
  {
    assert ([key] + path)[1..] == path;
  }

  /** A tree is determined by what stands at each of its places. */
  lemma {:induction false} EqualByContent(a: Json, b: Json)
    requires forall path: seq<Key> :: Content(a, path) == Content(b, path)
    ensures a == b
    decreases a
  {
    assert Content(a, []) == Content(b, []);
    forall key | Child(a, key).Some? || Child(b, key).Some?
      ensures Child(a, key).Some? && Child(b, key).Some?
      ensures forall path :: Content(Child(a, key).value, path) == Content(Child(b, key).value, path)
    {
      ContentBelow(a, key, []);
      ContentBelow(b, key, []);
      assert Content(a, [key] + []) == Content(b, [key] + []);
      forall path ensures Content(Child(a, key).value, path) == Content(Child(b, key).value, path) {
        ContentBelow(a, key, path);
        ContentBelow(b, key, path);
        assert Content(a, [key] + path) == Content(b, [key] + path);
      }
    }
    if a.Object? {
      forall k | k in a.fields || k in b.fields ensures k in a.fields && k in b.fields && a.fields[k] == b.fields[k] {
        assert Child(a, Field(k)).Some? || Child(b, Field(k)).Some?;
        EqualByContent(a.fields[k], b.fields[k]);
      }
    } else if a.Array? {
      forall i | 0 <= i < |a.items| ensures a.items[i] == b.items[i] {
        assert Child(a, Index(i)).Some?;
        EqualByContent(a.items[i], b.items[i]);
      }
    }
  }

  /** What a tree shows once bookkeeping is disregarded. */
  ghost function Visible(v: Json, path: seq<Key>): Option<Label> {
    if Bookkeeping(v, path) then None else Content(v, path)
  }

  /** Two trees clean to the same tree exactly when they differ only in bookkeeping. */
  lemma SameCleanIffSameVisible(a: Json, b: Json)
    ensures Clean(a, {}) == Clean(b, {}) <==> forall path: seq<Key> :: Visible(a, path) == Visible(b, path)
  {
    forall path: seq<Key>
      ensures Content(Clean(a, {}), path) == Visible(a, path)
      ensures Content(Clean(b, {}), path) == Visible(b, path)
    {
      CleanRemovesOnlyBookkeeping(a, {}, path);
      CleanRemovesOnlyBookkeeping(b, {}, path);
    }
    if forall path: seq<Key> :: Visible(a, path) == Visible(b, path) {
      EqualByContent(Clean(a, {}), Clean(b, {}));
    }
  }

  /** Cleaning twice is cleaning once. */
  lemma {:induction false} CleanIdempotent(v: Json, dropped: set<string>)
    ensures Clean(Clean(v, dropped), dropped) == Clean(v, dropped)
    decreases v
  {
    match v
    case Object(fields) =>
      forall k | k in fields ensures Clean(Clean(fields[k], DroppedUnder(k)), DroppedUnder(k)) == Clean(fields[k], DroppedUnder(k)) {
        CleanIdempotent(fields[k], DroppedUnder(k));
      }
    case Array(items) =>
      forall i | 0 <= i < |items| ensures Clean(Clean(items[i], {}), {}) == Clean(items[i], {}) {
        CleanIdempotent(items[i], {});
      }
    case _ =>
  }
}
