/** json.h / the accessors of json.cpp: the Node variant, Document, and the
    typed accessors and predicates on a node. */
module Json {
  import opened Wrappers
  import opened Lexicographic

  /** A C++ int. */
  type Int32 = x: int | -0x8000_0000 <= x <= 0x7FFF_FFFF

  /** Node: null, Array, Dict, bool, int, double or string. A double is kept
      as the real number it denotes. */
  datatype Node =
    | Null
    | Array(items: seq<Node>)
    | Dict(entries: seq<Entry>)
    | Bool(b: bool)
    | Int(i: Int32)
    | Double(d: real)
    | String(s: string)

  /** One key-value pair of a Dict. A std::map iterates its pairs by ascending
      key, so a Dict's entries are listed in that order. */
  datatype Entry = Entry(key: string, value: Node)

  /** Document: a wrapper around the root node. */
  datatype Document = Document(root: Node)

  /** The exceptions the JSON code raises. `Indeterminate` stands for the places
      where the source goes on with a `char` it never assigned, which has no
      defined behaviour. */
  datatype Exception =
    | ParsingError(message: string)
    | InvalidArgument(message: string)
    | OutOfRange
    | Indeterminate

  function Keys(entries: seq<Entry>): (r: seq<string>)
    ensures |r| == |entries|
    ensures forall i :: 0 <= i < |entries| ==> r[i] == entries[i].key
  {
    if entries == [] then [] else [entries[0].key] + Keys(entries[1..])
  }

  /** What a std::map can hold: keys strictly ascending, at every level. */
  predicate Canonical(n: Node)
    decreases n
  {
    match n
    case Array(items) => forall i :: 0 <= i < |items| ==> Canonical(items[i])
    case Dict(entries) =>
      && KeysAscending(entries)
      && forall i :: 0 <= i < |entries| ==> Canonical(entries[i].value)
    case _ => true
  }

  // Is* checkers

  predicate IsNull(n: Node) { n.Null? }
  predicate IsInt(n: Node) { n.Int? }
  /** IsDouble is also true of an int. */
  predicate IsDouble(n: Node) { n.Double? || IsInt(n) }
  predicate IsPureDouble(n: Node) { n.Double? }
  predicate IsString(n: Node) { n.String? }
  predicate IsBool(n: Node) { n.Bool? }
  predicate IsArray(n: Node) { n.Array? }
  predicate IsMap(n: Node) { n.Dict? }

  // As* accessors: the held value, or invalid_argument for another alternative

  function AsArray(n: Node): Result<seq<Node>, Exception> {
    if IsArray(n) then Ok(n.items) else Err(InvalidArgument("Received non array value in 'AsArray'"))
  }

  function AsMap(n: Node): Result<seq<Entry>, Exception> {
    if IsMap(n) then Ok(n.entries) else Err(InvalidArgument("Received non dict value in 'AsMap'"))
  }

  function AsString(n: Node): Result<string, Exception> {
    if IsString(n) then Ok(n.s) else Err(InvalidArgument("Received non string value in 'AsString'"))
  }

  function AsInt(n: Node): Result<Int32, Exception> {
    if IsInt(n) then Ok(n.i) else Err(InvalidArgument("Received non int value in 'AsInt'"))
  }

  /** AsDouble converts an int to a double. */
  function AsDouble(n: Node): Result<real, Exception> {
    if IsPureDouble(n) then Ok(n.d)
    else if IsInt(n) then Ok(n.i as real)
    else Err(InvalidArgument("Received non double value in 'AsDouble'"))
  }

  function AsBool(n: Node): Result<bool, Exception> {
    if IsBool(n) then Ok(n.b) else Err(InvalidArgument("Received non bool value in 'AsBool'"))
  }

  /** Each accessor succeeds exactly on the alternative its checker accepts, and
      gives back the value the node was built from. */
  lemma AccessorsMatchCheckers(n: Node)
    ensures AsArray(n).Ok? <==> IsArray(n)
    ensures AsMap(n).Ok? <==> IsMap(n)
    ensures AsString(n).Ok? <==> IsString(n)
    ensures AsInt(n).Ok? <==> IsInt(n)
    ensures AsBool(n).Ok? <==> IsBool(n)
    ensures AsDouble(n).Ok? <==> IsDouble(n)
    ensures IsDouble(n) <==> IsPureDouble(n) || IsInt(n)
    ensures !(IsPureDouble(n) && IsInt(n))
    ensures forall items :: n == Array(items) ==> AsArray(n) == Ok(items)
    ensures forall entries :: n == Dict(entries) ==> AsMap(n) == Ok(entries)
    ensures forall s :: n == String(s) ==> AsString(n) == Ok(s)
    ensures forall i: Int32 :: n == Int(i) ==> AsInt(n) == Ok(i) && AsDouble(n) == Ok(i as real)
    ensures forall d :: n == Double(d) ==> AsDouble(n) == Ok(d) && AsInt(n).Err?
    ensures forall b :: n == Bool(b) ==> AsBool(n) == Ok(b)
  {
  }

  /** Dict::at: the value under the key, or out_of_range. */
  function DictAt(entries: seq<Entry>, key: string): Result<Node, Exception> {
    if entries == [] then Err(OutOfRange)
    else if entries[0].key == key then Ok(entries[0].value)
    else DictAt(entries[1..], key)
  }

  /** at() finds a key exactly when the dict holds it, and returns a value
      the dict pairs with it; a missing key throws out_of_range. */
  lemma {:induction false} DictAtSpec(entries: seq<Entry>, key: string)
    ensures DictAt(entries, key).Ok? <==> key in Keys(entries)
    ensures DictAt(entries, key).Err? ==> DictAt(entries, key).error == OutOfRange
    ensures DictAt(entries, key).Ok? ==>
      exists i :: 0 <= i < |entries| && entries[i] == Entry(key, DictAt(entries, key).value)
    decreases |entries|
  {
    if entries != [] {
      assert Keys(entries) == [entries[0].key] + Keys(entries[1..]);
      if entries[0].key == key {
        assert entries[0] == Entry(key, entries[0].value);
      } else {
        DictAtSpec(entries[1..], key);
        var r := DictAt(entries[1..], key);
        if r.Ok? {
          var i :| 0 <= i < |entries| - 1 && entries[1..][i] == Entry(key, r.value);
          assert entries[i + 1] == Entry(key, r.value);
        }
      }
    }
  }

  /** The keys strictly ascend: the order a std::map iterates in. */
  predicate KeysAscending(entries: seq<Entry>) {
    forall i, j :: 0 <= i < j < |entries| ==> Less(entries[i].key, entries[j].key)
  }

  /** Dict::insert: a key already present keeps its value; a new key is placed
      in key order. */
  function DictInsert(entries: seq<Entry>, key: string, value: Node): (r: seq<Entry>)
    requires KeysAscending(entries)
    ensures KeysAscending(r)
    ensures forall e :: e in r ==> e in entries || e == Entry(key, value)
    decreases |entries|
  {
    if entries == [] then [Entry(key, value)]
    else if entries[0].key == key then entries
    else if Less(key, entries[0].key) then
      AscendingFront(Entry(key, value), entries);
      [Entry(key, value)] + entries
    else
      var tail := DictInsert(entries[1..], key, value);
      LessTotal(key, entries[0].key);
      AscendingAfterHead(entries, key, value, tail);
      [entries[0]] + tail
  }

  /** An entry whose key precedes the first key can go in front. */
  lemma AscendingFront(e: Entry, entries: seq<Entry>)
    requires KeysAscending(entries) && entries != [] && Less(e.key, entries[0].key)
    ensures KeysAscending([e] + entries)
  {
    var r := [e] + entries;
    forall i, j | 0 <= i < j < |r| ensures Less(r[i].key, r[j].key) {
      if i == 0 && j > 1 {
        LessTransitive(e.key, entries[0].key, r[j].key);
      }
    }
  }

  /** The recursive step of DictInsert: the head stays in front of the new tail. */
  lemma AscendingAfterHead(entries: seq<Entry>, key: string, value: Node, tail: seq<Entry>)
    requires KeysAscending(entries) && entries != [] && Less(entries[0].key, key)
    requires KeysAscending(tail)
    requires forall e :: e in tail ==> e in entries[1..] || e == Entry(key, value)
    ensures KeysAscending([entries[0]] + tail)
  {
    var r := [entries[0]] + tail;
    forall i, j | 0 <= i < j < |r| ensures Less(r[i].key, r[j].key) {
      if i == 0 {
        assert r[j] in tail;
        if r[j] != Entry(key, value) {
          var k :| 0 <= k < |entries[1..]| && entries[1..][k] == r[j];
          assert entries[k + 1] == r[j];
        }
      }
    }
  }

  /** The keys after the first still ascend. */
  lemma AscendingTail(entries: seq<Entry>)
    requires KeysAscending(entries) && entries != []
    ensures KeysAscending(entries[1..])
  {
    var t := entries[1..];
    forall i, j | 0 <= i < j < |t| ensures Less(t[i].key, t[j].key) {
      assert t[i] == entries[i + 1] && t[j] == entries[j + 1];
    }
  }

  /** A key present after the first one comes after it, in the rest. */
  lemma KeyAfterHead(entries: seq<Entry>, key: string)
    requires KeysAscending(entries) && key in Keys(entries)
    requires entries[0].key != key
    ensures Less(entries[0].key, key) && key in Keys(entries[1..])
  {
    var i :| 0 <= i < |entries| && Keys(entries)[i] == key;
    assert i > 0 && entries[i].key == key;
    assert Keys(entries[1..])[i - 1] == key;
  }

  /** A key after the first one is inserted into the rest. */
  lemma DictInsertStep(entries: seq<Entry>, key: string, value: Node)
    requires KeysAscending(entries) && entries != [] && Less(entries[0].key, key)
    ensures DictInsert(entries, key, value) == [entries[0]] + DictInsert(entries[1..], key, value)
  {
    LessIrreflexive(key);
    LessAsymmetric(entries[0].key, key);
  }

  /** Inserting a key already present leaves the dict as it was. */
  lemma {:induction false} DictInsertPresent(entries: seq<Entry>, key: string, value: Node)
    requires KeysAscending(entries) && key in Keys(entries)
    ensures DictInsert(entries, key, value) == entries
    decreases |entries|
  {
    if entries[0].key != key {
      KeyAfterHead(entries, key);
      DictInsertStep(entries, key, value);
      AscendingTail(entries);
      DictInsertPresent(entries[1..], key, value);
      assert entries == [entries[0]] + entries[1..];
    }
  }

  /** Inserting a new key adds exactly one entry: the new one. */
  lemma {:induction false} DictInsertNew(entries: seq<Entry>, key: string, value: Node)
    requires KeysAscending(entries) && key !in Keys(entries)
    ensures |DictInsert(entries, key, value)| == |entries| + 1
    ensures Entry(key, value) in DictInsert(entries, key, value)
    decreases |entries|
  {
    if entries != [] {
      assert Keys(entries) == [entries[0].key] + Keys(entries[1..]);
      if !Less(key, entries[0].key) {
        DictInsertNew(entries[1..], key, value);
      }
    }
  }

  /** Inserting loses no entry. */
  lemma {:induction false} DictInsertKeeps(entries: seq<Entry>, key: string, value: Node)
    requires KeysAscending(entries)
    ensures forall e :: e in entries ==> e in DictInsert(entries, key, value)
    decreases |entries|
  {
    if entries != [] && entries[0].key != key && !Less(key, entries[0].key) {
      DictInsertKeeps(entries[1..], key, value);
      assert forall e :: e in entries ==> e == entries[0] || e in entries[1..];
    }
  }

  /** What DictInsert keeps: a present key leaves the dict as it was; a new key
      adds exactly one entry and loses none. */
  lemma DictInsertSpec(entries: seq<Entry>, key: string, value: Node)
    requires KeysAscending(entries)
    ensures key in Keys(entries) ==> DictInsert(entries, key, value) == entries
    ensures key !in Keys(entries) ==> |DictInsert(entries, key, value)| == |entries| + 1
    ensures key !in Keys(entries) ==> Entry(key, value) in DictInsert(entries, key, value)
    ensures forall e :: e in entries ==> e in DictInsert(entries, key, value)
  {
    if key in Keys(entries) {
      DictInsertPresent(entries, key, value);
    } else {
      DictInsertNew(entries, key, value);
    }
    DictInsertKeeps(entries, key, value);
  }

  /** Inserting a key greater than every present key appends it: how a dict
      read back in key order is rebuilt. */
  lemma {:induction false} DictInsertLast(entries: seq<Entry>, key: string, value: Node)
    requires KeysAscending(entries)
    requires forall i :: 0 <= i < |entries| ==> Less(entries[i].key, key)
    ensures DictInsert(entries, key, value) == entries + [Entry(key, value)]
    decreases |entries|
  {
    if entries != [] {
      LessIrreflexive(key);
      LessAsymmetric(entries[0].key, key);
      DictInsertLast(entries[1..], key, value);
      assert entries == [entries[0]] + entries[1..];
    }
  }

  // Equality

  /** operator== on nodes: the same alternative holding equal data;
      vectors and maps compare element by element. */
  predicate Equal(a: Node, b: Node)
    decreases a
  {
    match (a, b)
    case (Null, Null) => true
    case (Array(x), Array(y)) => |x| == |y| && forall i :: 0 <= i < |x| ==> Equal(x[i], y[i])
    case (Dict(x), Dict(y)) =>
      |x| == |y| && forall i :: 0 <= i < |x| ==> x[i].key == y[i].key && Equal(x[i].value, y[i].value)
    case (Bool(x), Bool(y)) => x == y
    case (Int(x), Int(y)) => x == y
    case (Double(x), Double(y)) => x == y
    case (String(x), String(y)) => x == y
    case _ => false
  }

  /** operator!= is the negation of operator==. */
  predicate NotEqual(a: Node, b: Node) {
    !Equal(a, b)
  }

  /** Node equality is equality of the values. */
  lemma {:induction false} EqualIsIdentity(a: Node, b: Node)
    ensures Equal(a, b) <==> a == b
    decreases a
  {
    match (a, b)
    case (Array(x), Array(y)) =>
      if |x| == |y| {
        forall i | 0 <= i < |x| ensures Equal(x[i], y[i]) <==> x[i] == y[i] {
          EqualIsIdentity(x[i], y[i]);
        }
        if Equal(a, b) {
          assert x == y;
        }
      }
    case (Dict(x), Dict(y)) =>
      if |x| == |y| {
        forall i | 0 <= i < |x| ensures Equal(x[i].value, y[i].value) <==> x[i].value == y[i].value {
          EqualIsIdentity(x[i].value, y[i].value);
        }
        if Equal(a, b) {
          forall i | 0 <= i < |x| ensures x[i] == y[i] {
            assert x[i].key == y[i].key && x[i].value == y[i].value;
          }
          assert x == y;
        }
      }
    case _ =>
  }

  /** Documents compare by their roots. */
  predicate DocumentEqual(a: Document, b: Document) {
    Equal(a.root, b.root)
  }

  lemma DocumentEqualIsIdentity(a: Document, b: Document)
    ensures DocumentEqual(a, b) <==> a == b
    ensures !DocumentEqual(a, b) <==> NotEqual(a.root, b.root)
  {
    EqualIsIdentity(a.root, b.root);
  }
}
