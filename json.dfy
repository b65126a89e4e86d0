/**
 * Parsed JSON values as JavaScript sees them, and the object operations the
 * core uses: property access, truthiness, `Array.isArray`, `Object.keys` and
 * `Object.assign`. An object is an ordered association list, so that key
 * order (`Object.keys(o)[0]`) is part of the value.
 */
module Json {
  import opened Wrappers

  datatype Json =
    | JNull
    | JBool(boolean: bool)
    | JNum(num: real)
    | JStr(str: string)
    | JArr(items: seq<Json>)
    | JObj(fields: Fields)

  type Fields = seq<(string, Json)>

  /** JavaScript truthiness of a property value; `None` is `undefined`. */
  predicate Truthy(v: Option<Json>) {
    match v
    case None => false
    case Some(JNull) => false
    case Some(JBool(b)) => b
    case Some(JNum(n)) => n != 0.0
    case Some(JStr(s)) => s != ""
    case Some(JArr(_)) => true
    case Some(JObj(_)) => true
  }

  /** `Array.isArray`. */
  predicate IsArray(v: Option<Json>) {
    v.Some? && v.value.JArr?
  }

  /** The keys of an object, in order (`Object.keys`). */
  function Keys(fs: Fields): (ks: seq<string>)
    ensures |ks| == |fs|
    ensures forall i :: 0 <= i < |fs| ==> ks[i] == fs[i].0
  {
    seq(|fs|, i requires 0 <= i < |fs| => fs[i].0)
  }

  predicate HasKey(fs: Fields, k: string) {
    exists i :: 0 <= i < |fs| && fs[i].0 == k
  }

  /** No key occurs twice, as in every object `JSON.parse` builds. */
  predicate UniqueKeys(fs: Fields) {
    forall i, j :: 0 <= i < j < |fs| ==> fs[i].0 != fs[j].0
  }

  /** The position of key `k`, if present. */
  function IndexOf(fs: Fields, k: string): (r: Option<nat>)
    ensures r.Some? <==> HasKey(fs, k)
    ensures r.Some? ==>
      && r.value < |fs| && fs[r.value].0 == k
      && forall j :: 0 <= j < r.value ==> fs[j].0 != k
    decreases |fs|
  {
    if fs == [] then None
    else if fs[0].0 == k then Some(0)
    else match IndexOf(fs[1..], k) {
      case None => None
      case Some(i) => Some(i + 1)
    }
  }

  /** Property read `o[k]`; `None` is `undefined`. */
  function Get(fs: Fields, k: string): (r: Option<Json>)
    ensures r.Some? <==> HasKey(fs, k)
  {
    match IndexOf(fs, k) {
      case None => None
      case Some(i) => Some(fs[i].1)
    }
  }

  /** Property read on any non-null value: only objects have the properties
      the core reads, everything else gives `undefined`. */
  function Prop(v: Json, k: string): Option<Json> {
    if v.JObj? then Get(v.fields, k) else None
  }

  /** Property write `o[k] = v`: an existing key keeps its position and takes the
      new value, a new key goes to the end. */
  function Put(fs: Fields, k: string, v: Json): (r: Fields)
    ensures IndexOf(fs, k).Some? ==> var i := IndexOf(fs, k).value; r == fs[i := (k, v)]
    ensures IndexOf(fs, k).None? ==> r == fs + [(k, v)]
  {
    match IndexOf(fs, k) {
      case None => fs + [(k, v)]
      case Some(i) => fs[i := (k, v)]
    }
  }

  lemma PutGet(fs: Fields, k: string, v: Json, k': string)
    ensures Get(Put(fs, k, v), k') == if k' == k then Some(v) else Get(fs, k')
  {
    var r := Put(fs, k, v);
    if k' == k {
      match IndexOf(fs, k) {
        case None => assert r[|fs|].0 == k;
        case Some(i) =>
          assert r[i].0 == k;
          assert forall j :: 0 <= j < i ==> r[j] == fs[j];
      }
    } else {
      var a, b := IndexOf(fs, k'), IndexOf(r, k');
      if a.Some? { assert r[a.value].0 == k'; }
      if b.Some? { assert b.value < |fs| ==> fs[b.value].0 == k'; }
    }
  }

  lemma PutKeys(fs: Fields, k: string, v: Json)
    ensures Keys(Put(fs, k, v)) == if HasKey(fs, k) then Keys(fs) else Keys(fs) + [k]
    ensures UniqueKeys(fs) ==> UniqueKeys(Put(fs, k, v))
  {
  }

  /** `Object.assign(target, source)`: the source's properties are written into
      the target one by one, in the source's key order. */
  function Assign(target: Fields, source: Fields): Fields
    decreases |source|
  {
    if source == [] then target
    else Assign(Put(target, source[0].0, source[0].1), source[1..])
  }

  /** After `Object.assign`, a key of the source reads the source's value and any
      other key reads what the target had. */
  lemma {:induction false} AssignGet(target: Fields, source: Fields, k: string)
    requires UniqueKeys(source)
    ensures Get(Assign(target, source), k) ==
      if HasKey(source, k) then Get(source, k) else Get(target, k)
    decreases |source|
  {
    if source != [] {
      var (k0, v0) := source[0];
      var rest := source[1..];
      PutGet(target, k0, v0, k);
      AssignGet(Put(target, k0, v0), rest, k);
      if k == k0 {
        forall j | 0 <= j < |rest| ensures rest[j].0 != k {
          assert rest[j] == source[j + 1];
        }
        assert IndexOf(source, k) == Some(0);
      } else {
        assert HasKey(source, k) <==> HasKey(rest, k) by {
          if HasKey(source, k) {
            var j :| 0 <= j < |source| && source[j].0 == k;
            assert rest[j - 1].0 == k;
          }
          if HasKey(rest, k) {
            var j :| 0 <= j < |rest| && rest[j].0 == k;
            assert source[j + 1].0 == k;
          }
        }
        if HasKey(rest, k) {
          var i := IndexOf(rest, k).value;
          assert IndexOf(source, k) == Some(i + 1);
        }
      }
    }
  }

  /** The target's keys keep their positions: they form a prefix of the result's
      keys. */
  lemma {:induction false} AssignKeepsPrefix(target: Fields, source: Fields)
    ensures |target| <= |Assign(target, source)|
    ensures Keys(Assign(target, source))[..|target|] == Keys(target)
    decreases |source|
  {
    if source != [] {
      var (k0, v0) := source[0];
      var t' := Put(target, k0, v0);
      PutKeys(target, k0, v0);
      AssignKeepsPrefix(t', source[1..]);
      assert Keys(t')[..|target|] == Keys(target);
      var r := Assign(target, source);
      assert r == Assign(t', source[1..]);
      assert Keys(r)[..|target|] == Keys(r)[..|t'|][..|target|];
    }
  }

  /** The result has unique keys when the target does. */
  lemma {:induction false} AssignKeepsUnique(target: Fields, source: Fields)
    requires UniqueKeys(target)
    ensures UniqueKeys(Assign(target, source))
    decreases |source|
  {
    if source != [] {
      var (k0, v0) := source[0];
      PutKeys(target, k0, v0);
      AssignKeepsUnique(Put(target, k0, v0), source[1..]);
    }
  }

  /** The result has the keys of the target and of the source, and no others. */
  lemma {:induction false} AssignHasKey(target: Fields, source: Fields, k: string)
    ensures HasKey(Assign(target, source), k) <==> HasKey(target, k) || HasKey(source, k)
    decreases |source|
  {
    if source != [] {
      var (k0, v0) := source[0];
      var rest := source[1..];
      PutGet(target, k0, v0, k);
      AssignHasKey(Put(target, k0, v0), rest, k);
      if HasKey(rest, k) {
        var j :| 0 <= j < |rest| && rest[j].0 == k;
        assert source[j + 1].0 == k;
      }
      if HasKey(source, k) && k != k0 {
        var j :| 0 <= j < |source| && source[j].0 == k;
        assert rest[j - 1].0 == k;
      }
    }
  }

  /** No key of `a` is a key of `b`. */
  predicate DisjointKeys(a: Fields, b: Fields) {
    forall i, j :: 0 <= i < |a| && 0 <= j < |b| ==> a[i].0 != b[j].0
  }

  /** Assigning into an object none of whose keys the source has appends the
      source: `Object.assign({}, m)` is `m` itself. */
  lemma {:induction false} AssignFresh(target: Fields, source: Fields)
    requires UniqueKeys(source) && DisjointKeys(target, source)
    ensures Assign(target, source) == target + source
    decreases |source|
  {
    if source != [] {
      var t' := target + [source[0]];
      PutFreshKey(target, source);
      UniqueTail(source);
      DisjointTail(target, source);
      AssignFresh(t', source[1..]);
      ConsSplit(target, source);
    }
  }

  lemma ConsSplit(target: Fields, source: Fields)
    requires source != []
    ensures (target + [source[0]]) + source[1..] == target + source
  {
    assert [source[0]] + source[1..] == source;
  }

  /** The first source key is new to the target, so writing it appends it. */
  lemma PutFreshKey(target: Fields, source: Fields)
    requires source != [] && DisjointKeys(target, source)
    ensures Put(target, source[0].0, source[0].1) == target + [source[0]]
  {
    assert !HasKey(target, source[0].0) by {
      forall i | 0 <= i < |target| ensures target[i].0 != source[0].0 {
        assert target[i].0 != source[0].0;
      }
    }
  }

  lemma UniqueTail(source: Fields)
    requires source != [] && UniqueKeys(source)
    ensures UniqueKeys(source[1..])
  {
    var rest := source[1..];
    forall a, b | 0 <= a < b < |rest| ensures rest[a].0 != rest[b].0 {
      assert rest[a] == source[a + 1] && rest[b] == source[b + 1];
    }
  }

  /** The rest of the source is new to the target extended by the first entry. */
  lemma DisjointTail(target: Fields, source: Fields)
    requires source != [] && UniqueKeys(source) && DisjointKeys(target, source)
    ensures DisjointKeys(target + [source[0]], source[1..])
  {
    var rest := source[1..];
    var t' := target + [source[0]];
    forall i, j | 0 <= i < |t'| && 0 <= j < |rest| ensures t'[i].0 != rest[j].0 {
      assert rest[j] == source[j + 1];
      if i < |target| {
        assert t'[i] == target[i];
      }
    }
  }

  /** Assigning values the target already holds changes nothing. */
  lemma {:induction false} AssignSame(target: Fields, source: Fields)
    requires forall j :: 0 <= j < |source| ==> Get(target, source[j].0) == Some(source[j].1)
    ensures Assign(target, source) == target
    decreases |source|
  {
    if source != [] {
      var (k0, v0) := source[0];
      var i := IndexOf(target, k0).value;
      assert target[i] == (k0, v0);
      assert Put(target, k0, v0) == target;
      forall j | 0 <= j < |source[1..]| ensures Get(target, source[1..][j].0) == Some(source[1..][j].1) {
        assert source[1..][j] == source[j + 1];
      }
      AssignSame(target, source[1..]);
    }
  }
}
