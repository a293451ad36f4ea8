/** Building JSON values in place (operator[] and push_back of nvidia/src/json.cpp). */
module JsonBuilder {
  import opened Json
  import opened Wrappers

  datatype Lookup = Found(value: Json) | NotAnObject | KeyNotFound

  // ----- key order and member lists

  /** Byte-wise lexicographic order, the order of std::map<std::string, ...>. */
  predicate Less(a: string, b: string) {
    b != [] && (a == [] || a[0] < b[0] || (a[0] == b[0] && Less(a[1..], b[1..])))
  }

  lemma {:induction false} LessTransitive(a: string, b: string, c: string)
    requires Less(a, b) && Less(b, c)
    ensures Less(a, c)
  {
    if a == [] || a[0] != b[0] || b[0] != c[0] {
    } else {
      LessTransitive(a[1..], b[1..], c[1..]);
    }
  }

  lemma {:induction false} LessTotal(a: string, b: string)
    ensures Less(a, b) || a == b || Less(b, a)
    ensures !(Less(a, b) && Less(b, a)) && !Less(a, a)
  {
    if a == [] || b == [] || a[0] != b[0] {
      LessIrreflexive(a);
    } else {
      LessTotal(a[1..], b[1..]);
      assert a == [a[0]] + a[1..] && b == [b[0]] + b[1..];
      LessIrreflexive(a);
    }
  }

  lemma {:induction false} LessIrreflexive(a: string)
    ensures !Less(a, a)
  {
    if a == [] {
    } else {
      LessIrreflexive(a[1..]);
    }
  }

  /** The two strings agree on k bytes, and then a ends or has the smaller byte. */
  predicate SmallerAt(a: string, b: string, k: nat) {
    k <= |a| && k < |b| && a[..k] == b[..k] && (k == |a| || a[k] < b[k])
  }

  ghost predicate BytewiseLess(a: string, b: string) {
    exists k: nat :: SmallerAt(a, b, k)
  }

  lemma {:induction false} LessWitness(a: string, b: string) returns (k: nat)
    requires Less(a, b)
    ensures SmallerAt(a, b, k)
  {
    if a == [] || a[0] < b[0] {
      k := 0;
    } else {
      k := LessWitness(a[1..], b[1..]);
      assert a[..k + 1] == [a[0]] + a[1..][..k] && b[..k + 1] == [b[0]] + b[1..][..k];
      k := k + 1;
    }
  }

  lemma {:induction false} SmallerIsLess(a: string, b: string, k: nat)
    requires SmallerAt(a, b, k)
    ensures Less(a, b)
    decreases k
  {
    if k == 0 {
    } else {
      assert a[0] == a[..k][0] == b[..k][0] == b[0];
      assert a[1..][..k - 1] == a[..k][1..] && b[1..][..k - 1] == b[..k][1..];
      SmallerIsLess(a[1..], b[1..], k - 1);
    }
  }

  /** Keys are compared by their first different byte, a prefix being smaller. */
  lemma LessIsBytewise(a: string, b: string)
    ensures Less(a, b) <==> BytewiseLess(a, b)
  {
    if Less(a, b) { var k := LessWitness(a, b); }
    if BytewiseLess(a, b) {
      var k: nat :| SmallerAt(a, b, k);
      SmallerIsLess(a, b, k);
    }
  }

  /** Members in strictly increasing key order. */
  predicate Ordered(ms: seq<Member>) {
    |ms| <= 1 || (Less(ms[0].key, ms[1].key) && Ordered(ms[1..]))
  }

  /** Key i - 1 is smaller than key i at the byte where they first differ. */
  ghost predicate Rises(ms: seq<Member>, i: nat)
    requires 0 < i < |ms|
  {
    BytewiseLess(ms[i - 1].key, ms[i].key)
  }

  ghost predicate Ascending(ms: seq<Member>) {
    forall i: nat :: 0 < i < |ms| ==> Rises(ms, i)
  }

  lemma RisesInTail(ms: seq<Member>, i: nat)
    requires 1 < i < |ms|
    ensures Rises(ms, i) <==> Rises(ms[1..], i - 1)
  {
    assert ms[1..][i - 1] == ms[i] && ms[1..][i - 2] == ms[i - 1];
  }

  lemma {:induction false} OrderedIsAscending(ms: seq<Member>)
    ensures Ordered(ms) <==> Ascending(ms)
  {
    if |ms| <= 1 {
    } else {
      LessIsBytewise(ms[0].key, ms[1].key);
      OrderedIsAscending(ms[1..]);
      forall i: nat | 1 < i < |ms| ensures Rises(ms, i) <==> Rises(ms[1..], i - 1) { RisesInTail(ms, i); }
      assert Rises(ms, 1) <==> Less(ms[0].key, ms[1].key);
      if Ascending(ms) {
        forall j: nat | 0 < j < |ms[1..]| ensures Rises(ms[1..], j) {
          RisesInTail(ms, j + 1);
          assert Rises(ms, j + 1);
        }
      }
    }
  }

  function Find(ms: seq<Member>, key: string): Option<Json> {
    if ms == [] then None else if ms[0].key == key then Some(ms[0].value) else Find(ms[1..], key)
  }

  /** Set the value of a key, inserting it in order when absent. */
  function PutMember(ms: seq<Member>, key: string, v: Json): (r: seq<Member>)
    ensures r != []
  {
    if ms == [] then [Member(key, v)]
    else if ms[0].key == key then [Member(key, v)] + ms[1..]
    else if Less(key, ms[0].key) then [Member(key, v)] + ms
    else [ms[0]] + PutMember(ms[1..], key, v)
  }

  lemma {:induction false} FindPut(ms: seq<Member>, key: string, v: Json, other: string)
    ensures Find(PutMember(ms, key, v), other) == if other == key then Some(v) else Find(ms, other)
  {
    if ms == [] || (ms[0].key != key && Less(key, ms[0].key)) {
      assert ([Member(key, v)] + ms)[1..] == ms;
    } else if ms[0].key == key {
      assert ([Member(key, v)] + ms[1..])[1..] == ms[1..];
    } else {
      FindPut(ms[1..], key, v, other);
      assert ([ms[0]] + PutMember(ms[1..], key, v))[1..] == PutMember(ms[1..], key, v);
    }
  }

  lemma {:induction false} OrderedPut(ms: seq<Member>, key: string, v: Json)
    requires Ordered(ms)
    ensures Ordered(PutMember(ms, key, v))
    ensures PutMember(ms, key, v)[0].key == key || (ms != [] && PutMember(ms, key, v)[0].key == ms[0].key)
  {
    if ms == [] {
    } else {
      LessTotal(key, ms[0].key);
      if ms[0].key == key {
        assert ([Member(key, v)] + ms[1..])[1..] == ms[1..];
      } else if Less(key, ms[0].key) {
        assert ([Member(key, v)] + ms)[1..] == ms;
      } else {
        OrderedPut(ms[1..], key, v);
        assert ([ms[0]] + PutMember(ms[1..], key, v))[1..] == PutMember(ms[1..], key, v);
      }
    }
  }

  /** Keys before the first one do not occur. */
  lemma {:induction false} NotBefore(ms: seq<Member>, key: string)
    requires Ordered(ms) && (ms != [] ==> Less(key, ms[0].key))
    ensures Find(ms, key) == None
  {
    if ms == [] {
    } else {
      LessIrreflexive(key);
      if |ms| > 1 { LessTransitive(key, ms[0].key, ms[1].key); }
      NotBefore(ms[1..], key);
    }
  }

  ghost predicate SameEntries(a: seq<Member>, b: seq<Member>) {
    forall k: string :: Find(a, k) == Find(b, k)
  }

  /** Ordered member lists with the same entries are the same list. */
  lemma {:induction false} Canonical(a: seq<Member>, b: seq<Member>)
    requires Ordered(a) && Ordered(b) && SameEntries(a, b)
    ensures a == b
  {
    if a == [] || b == [] {
      if a != [] { assert Find(a, a[0].key) != Find(b, a[0].key); }
      if b != [] { assert Find(a, b[0].key) != Find(b, b[0].key); }
    } else {
      SameHead(a, b);
      SameTail(a, b);
      Canonical(a[1..], b[1..]);
      assert a == [a[0]] + a[1..] && b == [b[0]] + b[1..];
    }
  }

  lemma SameHead(a: seq<Member>, b: seq<Member>)
    requires a != [] && b != [] && Ordered(a) && Ordered(b) && SameEntries(a, b)
    ensures a[0] == b[0]
  {
    var ka, kb := a[0].key, b[0].key;
    assert Find(a, ka) == Find(b, ka) && Find(a, kb) == Find(b, kb);
    LessTotal(ka, kb);
    if Less(ka, kb) { NotBefore(b, ka); } else if Less(kb, ka) { NotBefore(a, kb); }
  }

  lemma FirstNotLater(a: seq<Member>)
    requires a != [] && Ordered(a)
    ensures Find(a[1..], a[0].key) == None
  {
    NotBefore(a[1..], a[0].key);
  }

  lemma SameTail(a: seq<Member>, b: seq<Member>)
    requires a != [] && b != [] && Ordered(a) && Ordered(b) && SameEntries(a, b) && a[0] == b[0]
    ensures SameEntries(a[1..], b[1..])
  {
    FirstNotLater(a);
    FirstNotLater(b);
    forall k: string ensures Find(a[1..], k) == Find(b[1..], k) {
      assert Find(a, k) == Find(b, k);
    }
  }

  // ----- values

  function Members(v: Json): seq<Member> {
    if v.Obj? then v.members else []
  }

  /** `v[key]` alone: anything but an object is replaced by one, and a missing key becomes null. */
  function Touch(v: Json, key: string): Json {
    Obj(if Find(Members(v), key).None? then PutMember(Members(v), key, Null) else Members(v))
  }

  /** `v[key] = w` */
  function Put(v: Json, key: string, w: Json): Json {
    Obj(PutMember(Members(v), key, w))
  }

  /** `v.push_back(w)`: anything but an array is replaced by one. */
  function Push(v: Json, w: Json): Json {
    Arr((if v.Arr? then v.items else []) + [w])
  }

  /** The const operator[], whose two exceptions are the other results. */
  function Get(v: Json, key: string): Lookup {
    if !v.Obj? then NotAnObject
    else match Find(v.members, key)
      case None => KeyNotFound
      case Some(w) => Found(w)
  }

  /** An assignment is seen by lookups of its key and by no other lookup that could succeed. */
  lemma GetPut(v: Json, key: string, w: Json, other: string)
    ensures Get(Put(v, key, w), key) == Found(w)
    ensures other != key ==> Get(Put(v, key, w), other) == if v.Obj? then Get(v, other) else KeyNotFound
  {
    FindPut(Members(v), key, w, key);
    FindPut(Members(v), key, w, other);
  }

  /** Assignments keep keys in order; a later one to the same key wins; assignments to different keys
      can be made in either order. */
  lemma PutLaws(v: Json, a: string, x: Json, b: string, y: Json)
    ensures Put(Put(v, a, x), a, y) == Put(v, a, y)
    ensures Put(Touch(v, a), a, x) == Put(v, a, x)
    ensures Ordered(Members(v)) ==> Ordered(Members(Touch(v, a))) && Ordered(Members(Put(v, a, x)))
    ensures Ordered(Members(v)) && a != b ==> Put(Put(v, a, x), b, y) == Put(Put(v, b, y), a, x)
  {
    var ms := Members(v);
    OverwriteMember(ms, a, x, y);
    OverwriteMember(ms, a, Null, x);
    if Ordered(ms) {
      OrderedPut(ms, a, x);
      OrderedPut(ms, a, Null);
      if a != b { CommuteMembers(ms, a, x, b, y); }
    }
  }

  lemma KeepsAscending(v: Json, a: string, x: Json)
    ensures Ascending(Members(v)) ==> Ascending(Members(Touch(v, a))) && Ascending(Members(Put(v, a, x)))
  {
    PutLaws(v, a, x, a, x);
    OrderedIsAscending(Members(v));
    OrderedIsAscending(Members(Touch(v, a)));
    OrderedIsAscending(Members(Put(v, a, x)));
  }

  lemma {:induction false} OverwriteMember(ms: seq<Member>, a: string, x: Json, y: Json)
    ensures PutMember(PutMember(ms, a, x), a, y) == PutMember(ms, a, y)
  {
    if ms == [] || ms[0].key == a || Less(a, ms[0].key) {
      assert PutMember(ms, a, x)[0] == Member(a, x);
      assert PutMember(ms, a, x)[1..] == PutMember(ms, a, y)[1..];
    } else {
      OverwriteMember(ms[1..], a, x, y);
      assert PutMember(ms, a, x)[1..] == PutMember(ms[1..], a, x);
    }
  }

  lemma CommuteMembers(ms: seq<Member>, a: string, x: Json, b: string, y: Json)
    requires Ordered(ms) && a != b
    ensures PutMember(PutMember(ms, a, x), b, y) == PutMember(PutMember(ms, b, y), a, x)
  {
    var l, r := PutMember(PutMember(ms, a, x), b, y), PutMember(PutMember(ms, b, y), a, x);
    OrderedPut(ms, a, x);
    OrderedPut(ms, b, y);
    OrderedPut(PutMember(ms, a, x), b, y);
    OrderedPut(PutMember(ms, b, y), a, x);
    forall k: string ensures Find(l, k) == Find(r, k) {
      FindPut(PutMember(ms, a, x), b, y, k);
      FindPut(ms, a, x, k);
      FindPut(PutMember(ms, b, y), a, x, k);
      FindPut(ms, b, y, k);
    }
    Canonical(l, r);
  }

  // ----- in place

  class JsonCell {
    var value: Json

    constructor (value: Json)
      ensures this.value == value
    {
      this.value := value;
    }

    /** The non-const operator[], returning what the reference then denotes. */
    method Index(key: string) returns (child: Json)
      modifies this
      ensures value == Touch(old(value), key) && Get(value, key) == Found(child)
      ensures Ascending(old(Members(value))) ==> Ascending(Members(value))
      ensures child == if Get(old(value), key).Found? then Get(old(value), key).value else Null
    {
      KeepsAscending(value, key, Null);
      if !value.Obj? {
        value := Obj([]);
      }
      var ms := value.members;
      match Find(ms, key) {
        case Some(w) => child := w;
        case None =>
          child := Null;
          FindPut(ms, key, Null, key);
          value := Obj(PutMember(ms, key, Null));
      }
    }

    /** Assignment through operator[]. */
    method Assign(key: string, child: Json)
      modifies this
      ensures value == Put(old(value), key, child)
      ensures Ascending(old(Members(value))) ==> Ascending(Members(value))
    {
      KeepsAscending(value, key, child);
      PutLaws(value, key, child, key, child);
      var _ := Index(key);
      value := Obj(PutMember(value.members, key, child));
    }

    method PushBack(child: Json)
      modifies this
      ensures value == Push(old(value), child)
      ensures value.Arr? && value.items == (if old(value).Arr? then old(value).items else []) + [child]
    {
      if !value.Arr? {
        value := Arr([]);
      }
      value := Arr(value.items + [child]);
    }
  }
}
