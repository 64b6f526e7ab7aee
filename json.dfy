/**
 * JSON values as trees, and the key-sorting canonicaliser `mustSortJSON`
 * (x/auth/migrations/legacytx/stdsign.go:48-59). The Go code decodes the
 * bytes into a generic value (objects become maps) and encodes it again;
 * encoding a map writes its members in increasing byte-wise key order and
 * an array in its own order. At the level of trees that is: sort every
 * object's members by key, recursively, and keep every array's order.
 */
module Json {
  import opened Wrappers

  datatype Json =
    | JNull
    | JBool(b: bool)
    | JNum(n: int)
    | JStr(s: string)
    | JArr(items: seq<Json>)
    | JObj(members: seq<Member>)

  datatype Member = Member(key: string, value: Json)

  // ---------------------------------------------------------------------
  // Key order: lexicographic by character code, which for the UTF-8 keys
  // Go compares byte by byte is the same order.
  // ---------------------------------------------------------------------

  predicate KeyLe(a: string, b: string)
  {
    a == [] || (b != [] && (a[0] < b[0] || (a[0] == b[0] && KeyLe(a[1..], b[1..]))))
  }

  lemma {:induction false} KeyLeReflexive(a: string)
    ensures KeyLe(a, a)
  {
    if a != [] {
      KeyLeReflexive(a[1..]);
    }
  }

  lemma {:induction false} KeyLeTotal(a: string, b: string)
    ensures KeyLe(a, b) || KeyLe(b, a)
  {
    if a != [] && b != [] && a[0] == b[0] {
      KeyLeTotal(a[1..], b[1..]);
    }
  }

  lemma {:induction false} KeyLeAntisymmetric(a: string, b: string)
    requires KeyLe(a, b) && KeyLe(b, a)
    ensures a == b
  {
    if a != [] && b != [] {
      KeyLeAntisymmetric(a[1..], b[1..]);
      assert a == [a[0]] + a[1..] && b == [b[0]] + b[1..];
    }
  }

  lemma {:induction false} KeyLeTransitive(a: string, b: string, c: string)
    requires KeyLe(a, b) && KeyLe(b, c)
    ensures KeyLe(a, c)
  {
    if a != [] && b != [] && c != [] && a[0] == b[0] && b[0] == c[0] {
      KeyLeTransitive(a[1..], b[1..], c[1..]);
    }
  }

  // ---------------------------------------------------------------------
  // Member lists
  // ---------------------------------------------------------------------

  /** The keys of a member list, in order. */
  function KeysOf(ms: seq<Member>): (ks: seq<string>)
    ensures |ks| == |ms|
    ensures forall i :: 0 <= i < |ms| ==> ks[i] == ms[i].key
  {
    if ms == [] then [] else [ms[0].key] + KeysOf(ms[1..])
  }

  predicate NoDuplicates(ks: seq<string>)
  {
    ks == [] || (ks[0] !in ks[1..] && NoDuplicates(ks[1..]))
  }

  /** No key occurs twice; the case in which a JSON object is a map. */
  predicate DistinctKeys(ms: seq<Member>)
  {
    NoDuplicates(KeysOf(ms))
  }

  predicate Sorted(ms: seq<Member>)
  {
    forall i, j :: 0 <= i < j < |ms| ==> KeyLe(ms[i].key, ms[j].key)
  }

  /** The value of the first member named `key`. */
  function Find(ms: seq<Member>, key: string): (r: Option<Json>)
    ensures r.None? <==> key !in KeysOf(ms)
    ensures r.Some? ==> Member(key, r.value) in ms
  {
    if ms == [] then None
    else if ms[0].key == key then Some(ms[0].value)
    else Find(ms[1..], key)
  }

  /** With distinct keys, each member is what its key finds. */
  lemma {:induction false} FindAt(ms: seq<Member>, i: nat)
    requires DistinctKeys(ms) && i < |ms|
    ensures Find(ms, ms[i].key) == Some(ms[i].value)
  {
    assert KeysOf(ms) == [ms[0].key] + KeysOf(ms[1..]);
    if i > 0 {
      assert KeysOf(ms[1..])[i - 1] == ms[i].key;
      FindAt(ms[1..], i - 1);
    }
  }

  /** With distinct keys, a member is what its key finds. */
  lemma FindMember(ms: seq<Member>, m: Member)
    requires DistinctKeys(ms) && m in ms
    ensures Find(ms, m.key) == Some(m.value)
  {
    var i :| 0 <= i < |ms| && ms[i] == m;
    FindAt(ms, i);
  }

  /** The member named `key` of an object; None for a missing key or a non-object. */
  function Lookup(j: Json, key: string): Option<Json>
  {
    if j.JObj? then Find(j.members, key) else None
  }

  /** Places `m` before the first member whose key is not below it (stable). */
  function Insert(m: Member, s: seq<Member>): (r: seq<Member>)
    ensures multiset(r) == multiset(s) + multiset{m}
    ensures |r| == |s| + 1
  {
    if s == [] then [m]
    else if KeyLe(m.key, s[0].key) then [m] + s
    else
      assert s == [s[0]] + s[1..];
      [s[0]] + Insert(m, s[1..])
  }

  /** Stable insertion sort of a member list by key. */
  function SortMembers(ms: seq<Member>): (r: seq<Member>)
    ensures multiset(r) == multiset(ms)
    ensures |r| == |ms|
  {
    if ms == [] then []
    else
      assert ms == [ms[0]] + ms[1..];
      Insert(ms[0], SortMembers(ms[1..]))
  }

  lemma {:induction false} InsertSorted(m: Member, s: seq<Member>)
    requires Sorted(s)
    ensures Sorted(Insert(m, s))
  {
    if s == [] {
    } else if KeyLe(m.key, s[0].key) {
      var r := Insert(m, s);
      forall j | 1 <= j < |r| ensures KeyLe(r[0].key, r[j].key) {
        if j > 1 {
          KeyLeTransitive(m.key, s[0].key, s[j - 1].key);
        }
      }
    } else {
      InsertSorted(m, s[1..]);
      var r := Insert(m, s);
      var t := Insert(m, s[1..]);
      KeyLeTotal(m.key, s[0].key);
      forall j | 1 <= j < |r| ensures KeyLe(r[0].key, r[j].key) {
        assert r[j] == t[j - 1];
        assert t[j - 1] in multiset(s[1..]) + multiset{m};
        if t[j - 1] != m {
          assert t[j - 1] in s[1..];
          var k :| 1 <= k < |s| && s[k] == t[j - 1];
        }
      }
    }
  }

  lemma {:induction false} SortMembersSorted(ms: seq<Member>)
    ensures Sorted(SortMembers(ms))
  {
    if ms != [] {
      SortMembersSorted(ms[1..]);
      InsertSorted(ms[0], SortMembers(ms[1..]));
    }
  }

  /** Sorting a sorted list changes nothing. */
  lemma {:induction false} SortMembersOfSorted(ms: seq<Member>)
    requires Sorted(ms)
    ensures SortMembers(ms) == ms
  {
    if ms != [] {
      SortMembersOfSorted(ms[1..]);
      assert ms == [ms[0]] + ms[1..];
    }
  }

  lemma {:induction false} InsertKeys(m: Member, s: seq<Member>)
    ensures forall k :: k in KeysOf(Insert(m, s)) <==> k in KeysOf(s) || k == m.key
  {
    if s != [] && !KeyLe(m.key, s[0].key) {
      InsertKeys(m, s[1..]);
      assert KeysOf(s) == [s[0].key] + KeysOf(s[1..]);
      assert KeysOf(Insert(m, s)) == [s[0].key] + KeysOf(Insert(m, s[1..]));
    }
  }

  lemma {:induction false} SortMembersKeys(ms: seq<Member>)
    ensures forall k :: k in KeysOf(SortMembers(ms)) <==> k in KeysOf(ms)
  {
    if ms != [] {
      SortMembersKeys(ms[1..]);
      InsertKeys(ms[0], SortMembers(ms[1..]));
      assert KeysOf(ms) == [ms[0].key] + KeysOf(ms[1..]);
    }
  }

  lemma {:induction false} InsertDistinct(m: Member, s: seq<Member>)
    requires DistinctKeys(s) && m.key !in KeysOf(s)
    ensures DistinctKeys(Insert(m, s))
  {
    if s != [] && !KeyLe(m.key, s[0].key) {
      assert KeysOf(s) == [s[0].key] + KeysOf(s[1..]);
      InsertDistinct(m, s[1..]);
      InsertKeys(m, s[1..]);
      assert KeysOf(Insert(m, s)) == [s[0].key] + KeysOf(Insert(m, s[1..]));
    }
  }

  lemma {:induction false} SortMembersDistinct(ms: seq<Member>)
    requires DistinctKeys(ms)
    ensures DistinctKeys(SortMembers(ms))
  {
    if ms != [] {
      assert KeysOf(ms) == [ms[0].key] + KeysOf(ms[1..]);
      SortMembersDistinct(ms[1..]);
      SortMembersKeys(ms[1..]);
      InsertDistinct(ms[0], SortMembers(ms[1..]));
    }
  }

  lemma {:induction false} FindInsert(m: Member, s: seq<Member>, key: string)
    requires m.key !in KeysOf(s)
    ensures Find(Insert(m, s), key) == if m.key == key then Some(m.value) else Find(s, key)
  {
    if s != [] && !KeyLe(m.key, s[0].key) {
      assert KeysOf(s) == [s[0].key] + KeysOf(s[1..]);
      FindInsert(m, s[1..], key);
    }
  }

  /** With distinct keys, sorting does not change what a key looks up. */
  lemma {:induction false} FindSortMembers(ms: seq<Member>, key: string)
    requires DistinctKeys(ms)
    ensures Find(SortMembers(ms), key) == Find(ms, key)
  {
    if ms != [] {
      assert KeysOf(ms) == [ms[0].key] + KeysOf(ms[1..]);
      FindSortMembers(ms[1..], key);
      SortMembersKeys(ms[1..]);
      FindInsert(ms[0], SortMembers(ms[1..]), key);
    }
  }

  /** With distinct keys, no later member shares the first member's key. */
  lemma HeadKeyUnique(x: seq<Member>)
    requires DistinctKeys(x) && x != []
    ensures forall j :: 0 < j < |x| ==> x[j].key != x[0].key
  {
    assert KeysOf(x) == [x[0].key] + KeysOf(x[1..]);
    forall j | 0 < j < |x| ensures x[j].key != x[0].key {
      assert KeysOf(x[1..])[j - 1] == x[j].key;
    }
  }

  lemma TailMultiset(x: seq<Member>)
    requires x != []
    ensures multiset(x[1..]) == multiset(x) - multiset{x[0]}
  {
    assert x == [x[0]] + x[1..];
  }

  /** Two sorted non-empty lists with the same members, one with distinct keys, start alike. */
  lemma SortedSameHead(x: seq<Member>, y: seq<Member>)
    requires Sorted(x) && Sorted(y) && DistinctKeys(x)
    requires multiset(x) == multiset(y) && x != [] && y != []
    ensures x[0] == y[0]
  {
    HeadKeyUnique(x);
    assert x[0] in multiset(y);
    var j :| 0 <= j < |y| && y[j] == x[0];
    assert y[0] in multiset(x);
    var i :| 0 <= i < |x| && x[i] == y[0];
    KeyLeReflexive(x[0].key);
    assert KeyLe(y[0].key, x[0].key) by {
      if j > 0 {
        assert KeyLe(y[0].key, y[j].key);
      }
    }
    assert KeyLe(x[0].key, y[0].key) by {
      if i > 0 {
        assert KeyLe(x[0].key, x[i].key);
      }
    }
    KeyLeAntisymmetric(x[0].key, y[0].key);
  }

  /**
   * A sorted list with distinct keys is determined by its members: two such
   * lists holding the same members are equal, whatever order they came in.
   */
  lemma {:induction false} SortedUnique(x: seq<Member>, y: seq<Member>)
    requires Sorted(x) && Sorted(y) && DistinctKeys(x)
    requires multiset(x) == multiset(y)
    ensures x == y
    decreases |x|
  {
    if x == [] {
      assert |y| == |multiset(y)| == 0;
    } else {
      assert x[0] in multiset(y);
      SortedSameHead(x, y);
      SortedTails(x, y);
      SortedUnique(x[1..], y[1..]);
      assert x == [x[0]] + x[1..];
      assert y == [y[0]] + y[1..];
    }
  }

  /** The tails of two lists that start alike keep the hypotheses of SortedUnique. */
  lemma SortedTails(x: seq<Member>, y: seq<Member>)
    requires Sorted(x) && Sorted(y) && DistinctKeys(x)
    requires multiset(x) == multiset(y) && x != [] && y != [] && x[0] == y[0]
    ensures Sorted(x[1..]) && Sorted(y[1..]) && DistinctKeys(x[1..])
    ensures multiset(x[1..]) == multiset(y[1..])
  {
    TailMultiset(x);
    TailMultiset(y);
    assert KeysOf(x) == [x[0].key] + KeysOf(x[1..]);
  }

  /** Sorting a member list with distinct keys does not depend on the order it came in. */
  lemma SortMembersIgnoresOrder(a: seq<Member>, b: seq<Member>)
    requires multiset(a) == multiset(b) && DistinctKeys(a)
    ensures SortMembers(a) == SortMembers(b)
  {
    SortMembersSorted(a);
    SortMembersSorted(b);
    SortMembersDistinct(a);
    SortedUnique(SortMembers(a), SortMembers(b));
  }

  // ---------------------------------------------------------------------
  // The canonicaliser
  // ---------------------------------------------------------------------

  /**
   * mustSortJSON on trees: every object's members sorted by key, every
   * array in its own order, scalars unchanged. The result has the input's
   * shape: an object stays an object with the same keys, now in key order,
   * and an array stays an array of the same length.
   */
  function MustSortJson(j: Json): (r: Json)
    ensures j.JArr? <==> r.JArr?
    ensures j.JObj? <==> r.JObj?
    ensures j.JArr? ==> |r.items| == |j.items|
    ensures j.JObj? ==> Sorted(r.members) && |r.members| == |j.members|
    ensures j.JObj? ==> forall k :: k in KeysOf(r.members) <==> k in KeysOf(j.members)
    ensures !j.JArr? && !j.JObj? ==> r == j
    decreases j
  {
    match j
    case JArr(items) =>
      JArr(seq(|items|, i requires 0 <= i < |items| => MustSortJson(items[i])))
    case JObj(ms) =>
      var c := seq(|ms|, i requires 0 <= i < |ms| => Member(ms[i].key, MustSortJson(ms[i].value)));
      assert KeysOf(c) == KeysOf(ms);
      SortMembersSorted(c);
      SortMembersKeys(c);
      JObj(SortMembers(c))
    case _ => j
  }

  /** The member list of an object with every value canonicalised, before the sort. */
  function CanonMembers(ms: seq<Member>): (r: seq<Member>)
    ensures |r| == |ms|
    ensures KeysOf(r) == KeysOf(ms)
    ensures forall i :: 0 <= i < |ms| ==> r[i] == Member(ms[i].key, MustSortJson(ms[i].value))
  {
    seq(|ms|, i requires 0 <= i < |ms| => Member(ms[i].key, MustSortJson(ms[i].value)))
  }

  lemma MustSortJsonObject(ms: seq<Member>)
    ensures MustSortJson(JObj(ms)) == JObj(SortMembers(CanonMembers(ms)))
  {
  }

  /** Every object in `j`, however deep, has its members in key order. */
  predicate IsCanonical(j: Json)
    decreases j
  {
    match j
    case JArr(items) => forall i :: 0 <= i < |items| ==> IsCanonical(items[i])
    case JObj(ms) => Sorted(ms) && forall i :: 0 <= i < |ms| ==> IsCanonical(ms[i].value)
    case _ => true
  }

  /** The canonicaliser's output is canonical. */
  lemma {:induction false} MustSortJsonCanonical(j: Json)
    ensures IsCanonical(MustSortJson(j))
    decreases j
  {
    match j
    case JArr(items) =>
      forall i | 0 <= i < |items| ensures IsCanonical(MustSortJson(items[i])) {
        MustSortJsonCanonical(items[i]);
      }
    case JObj(ms) =>
      var c := CanonMembers(ms);
      var r := SortMembers(c);
      SortMembersSorted(c);
      forall i | 0 <= i < |r| ensures IsCanonical(r[i].value) {
        assert r[i] in multiset(c);
        var k :| 0 <= k < |c| && c[k] == r[i];
        MustSortJsonCanonical(ms[k].value);
      }
    case _ =>
  }

  /** A canonical value is left as it is. */
  lemma {:induction false} MustSortJsonOfCanonical(j: Json)
    requires IsCanonical(j)
    ensures MustSortJson(j) == j
    decreases j
  {
    match j
    case JArr(items) =>
      forall i | 0 <= i < |items| ensures MustSortJson(items[i]) == items[i] {
        MustSortJsonOfCanonical(items[i]);
      }
    case JObj(ms) =>
      forall i | 0 <= i < |ms| ensures MustSortJson(ms[i].value) == ms[i].value {
        MustSortJsonOfCanonical(ms[i].value);
      }
      assert CanonMembers(ms) == ms;
      SortMembersOfSorted(ms);
    case _ =>
  }

  /** Sorting twice is sorting once. */
  lemma MustSortJsonIdempotent(j: Json)
    ensures MustSortJson(MustSortJson(j)) == MustSortJson(j)
  {
    MustSortJsonCanonical(j);
    MustSortJsonOfCanonical(MustSortJson(j));
  }

  lemma RemoveAtMultiset(s: seq<Member>, j: nat)
    requires j < |s|
    ensures multiset(s[..j] + s[j + 1..]) == multiset(s) - multiset{s[j]}
  {
    assert s == s[..j] + [s[j]] + s[j + 1..];
  }

  function MapMembers(s: seq<Member>, f: Member -> Member): (r: seq<Member>)
    ensures |r| == |s| && forall i :: 0 <= i < |s| ==> r[i] == f(s[i])
  {
    seq(|s|, i requires 0 <= i < |s| => f(s[i]))
  }

  lemma MapMembersCons(s: seq<Member>, f: Member -> Member)
    requires s != []
    ensures MapMembers(s, f) == [f(s[0])] + MapMembers(s[1..], f)
  {
    var l, r := MapMembers(s, f), [f(s[0])] + MapMembers(s[1..], f);
    forall i | 0 <= i < |s| ensures l[i] == r[i] {
      if i > 0 {
        assert r[i] == MapMembers(s[1..], f)[i - 1];
      }
    }
  }

  lemma MapMembersRemoveAt(s: seq<Member>, j: nat, f: Member -> Member)
    requires j < |s|
    ensures MapMembers(s[..j] + s[j + 1..], f) == MapMembers(s, f)[..j] + MapMembers(s, f)[j + 1..]
  {
    var t := s[..j] + s[j + 1..];
    var l, r := MapMembers(t, f), MapMembers(s, f)[..j] + MapMembers(s, f)[j + 1..];
    assert |l| == |r|;
    forall i | 0 <= i < |t| ensures l[i] == r[i] {
      if i < j {
        assert t[i] == s[i];
      } else {
        assert t[i] == s[i + 1];
      }
    }
  }

  /** Mapping a list is mapping one member plus mapping the list without it. */
  lemma MapMembersRemoveAtMultiset(s: seq<Member>, j: nat, f: Member -> Member)
    requires j < |s|
    ensures multiset(MapMembers(s, f)) == multiset{f(s[j])} + multiset(MapMembers(s[..j] + s[j + 1..], f))
  {
    var cs := MapMembers(s, f);
    MapMembersRemoveAt(s, j, f);
    RemoveAtMultiset(cs, j);
    assert cs[j] in multiset(cs);
  }

  /** Removing matching members from two lists with equal multisets leaves equal multisets. */
  lemma RemoveMatching(a: seq<Member>, b: seq<Member>, j: nat)
    requires multiset(a) == multiset(b) && a != [] && j < |b| && b[j] == a[0]
    ensures multiset(a[1..]) == multiset(b[..j] + b[j + 1..])
  {
    RemoveAtMultiset(b, j);
    TailMultiset(a);
  }

  /** Mapping a non-empty list is mapping its head plus mapping its tail. */
  lemma MapMembersHeadMultiset(a: seq<Member>, f: Member -> Member)
    requires a != []
    ensures multiset(MapMembers(a, f)) == multiset{f(a[0])} + multiset(MapMembers(a[1..], f))
  {
    MapMembersCons(a, f);
  }

  /** The inductive step of MapMembersMultiset: put the matching members back. */
  lemma MapMembersRestore(a: seq<Member>, b: seq<Member>, j: nat, f: Member -> Member)
    requires a != [] && j < |b| && b[j] == a[0]
    requires multiset(MapMembers(a[1..], f)) == multiset(MapMembers(b[..j] + b[j + 1..], f))
    ensures multiset(MapMembers(a, f)) == multiset(MapMembers(b, f))
  {
    var tail := multiset(MapMembers(a[1..], f));
    var rest := multiset(MapMembers(b[..j] + b[j + 1..], f));
    MapMembersHeadMultiset(a, f);
    MapMembersRemoveAtMultiset(b, j, f);
    assert multiset(MapMembers(a, f)) == multiset{f(a[0])} + tail;
    assert multiset(MapMembers(b, f)) == multiset{f(b[j])} + rest;
  }

  /** Applying a function member-wise respects equal member multisets. */
  lemma {:induction false} MapMembersMultiset(a: seq<Member>, b: seq<Member>, f: Member -> Member)
    requires multiset(a) == multiset(b)
    ensures multiset(MapMembers(a, f)) == multiset(MapMembers(b, f))
    decreases |a|
  {
    if a == [] {
      assert |b| == |multiset(b)| == 0;
    } else {
      assert a[0] in multiset(b);
      var j :| 0 <= j < |b| && b[j] == a[0];
      RemoveMatching(a, b, j);
      MapMembersMultiset(a[1..], b[..j] + b[j + 1..], f);
      MapMembersRestore(a, b, j, f);
    }
  }

  lemma CanonMembersMultiset(a: seq<Member>, b: seq<Member>)
    requires multiset(a) == multiset(b)
    ensures multiset(CanonMembers(a)) == multiset(CanonMembers(b))
  {
    var f := (m: Member) => Member(m.key, MustSortJson(m.value));
    MapMembersMultiset(a, b, f);
    assert CanonMembers(a) == MapMembers(a, f);
    assert CanonMembers(b) == MapMembers(b, f);
  }

  /**
   * An object's canonical form does not depend on the order in which an
   * encoder happened to write its members.
   */
  lemma MustSortJsonIgnoresMemberOrder(a: seq<Member>, b: seq<Member>)
    requires multiset(a) == multiset(b) && DistinctKeys(a)
    ensures MustSortJson(JObj(a)) == MustSortJson(JObj(b))
  {
    CanonMembersMultiset(a, b);
    SortMembersIgnoresOrder(CanonMembers(a), CanonMembers(b));
  }

  /**
   * In an object with distinct keys, the canonical form holds under each key
   * the canonical form of what the object held there, and nothing else.
   */
  lemma LookupMustSortJson(ms: seq<Member>, key: string)
    requires DistinctKeys(ms)
    ensures Lookup(MustSortJson(JObj(ms)), key)
         == if Find(ms, key).Some? then Some(MustSortJson(Find(ms, key).value)) else None
  {
    var c := CanonMembers(ms);
    FindSortMembers(c, key);
    FindCanonMembers(ms, key);
  }

  lemma {:induction false} FindCanonMembers(ms: seq<Member>, key: string)
    ensures Find(CanonMembers(ms), key)
         == if Find(ms, key).Some? then Some(MustSortJson(Find(ms, key).value)) else None
  {
    if ms != [] {
      assert CanonMembers(ms)[1..] == CanonMembers(ms[1..]);
      FindCanonMembers(ms[1..], key);
    }
  }

  // ---------------------------------------------------------------------
  // Key order at every depth
  // ---------------------------------------------------------------------

  /**
   * `a` and `b` are the same JSON except for the order in which objects,
   * at any depth, list their members: scalars are equal, arrays are related
   * element by element, and objects have distinct keys, the same key set,
   * and related values under each key.
   */
  ghost predicate SameUpToOrder(a: Json, b: Json)
    decreases a
  {
    match a
    case JArr(xs) =>
      b.JArr? && |xs| == |b.items| && forall i :: 0 <= i < |xs| ==> SameUpToOrder(xs[i], b.items[i])
    case JObj(ma) =>
      && b.JObj? && DistinctKeys(ma) && DistinctKeys(b.members)
      && (forall k :: k in KeysOf(ma) <==> k in KeysOf(b.members))
      && forall i :: 0 <= i < |ma| ==>
           Find(b.members, ma[i].key).Some? && SameUpToOrder(ma[i].value, Find(b.members, ma[i].key).value)
    case _ => b == a
  }

  lemma FindHead(x: seq<Member>)
    ensures x != [] ==> Find(x, x[0].key) == Some(x[0].value)
  {
  }

  /** Two sorted lists, each holding the other's first key, start with the same key. */
  lemma SortedSameKeyHead(x: seq<Member>, y: seq<Member>)
    requires Sorted(x) && Sorted(y) && x != [] && y != []
    requires x[0].key in KeysOf(y) && y[0].key in KeysOf(x)
    ensures x[0].key == y[0].key
  {
    var j :| 0 <= j < |KeysOf(y)| && KeysOf(y)[j] == x[0].key;
    var i :| 0 <= i < |KeysOf(x)| && KeysOf(x)[i] == y[0].key;
    KeyLeReflexive(x[0].key);
    assert KeyLe(y[0].key, x[0].key) by {
      if j > 0 {
        assert KeyLe(y[0].key, y[j].key);
      }
    }
    assert KeyLe(x[0].key, y[0].key) by {
      if i > 0 {
        assert KeyLe(x[0].key, x[i].key);
      }
    }
    KeyLeAntisymmetric(x[0].key, y[0].key);
  }

  /** Dropping a distinct first member keeps every other key's lookup. */
  lemma FindTail(x: seq<Member>, k: string)
    requires DistinctKeys(x) && x != []
    ensures DistinctKeys(x[1..]) && Sorted(x) ==> Sorted(x[1..])
    ensures Find(x[1..], k) == if k == x[0].key then None else Find(x, k)
  {
    assert KeysOf(x) == [x[0].key] + KeysOf(x[1..]);
  }

  /**
   * A sorted list with distinct keys is determined by what its keys look
   * up: two such lists that agree on every key are equal.
   */
  lemma {:induction false} SortedUniqueByFind(x: seq<Member>, y: seq<Member>)
    requires Sorted(x) && Sorted(y) && DistinctKeys(x) && DistinctKeys(y)
    requires forall k :: Find(x, k) == Find(y, k)
    ensures x == y
    decreases |x|
  {
    FindHead(x);
    FindHead(y);
    if x != [] {
      assert Find(y, x[0].key).Some?;
      SortedSameKeyHead(x, y);
      assert x[0] == y[0];
      forall k ensures Find(x[1..], k) == Find(y[1..], k) {
        FindTail(x, k);
        FindTail(y, k);
      }
      FindTail(x, x[0].key);
      FindTail(y, y[0].key);
      SortedUniqueByFind(x[1..], y[1..]);
      assert x == [x[0]] + x[1..];
      assert y == [y[0]] + y[1..];
    }
  }

  /**
   * Two objects with distinct keys, the same key set and equal canonical
   * values under each key have the same canonical form.
   */
  lemma CanonObjectsAgree(ma: seq<Member>, mb: seq<Member>)
    requires DistinctKeys(ma) && DistinctKeys(mb)
    requires forall k :: k in KeysOf(ma) <==> k in KeysOf(mb)
    requires forall i :: 0 <= i < |ma| ==>
      Find(mb, ma[i].key).Some? && MustSortJson(ma[i].value) == MustSortJson(Find(mb, ma[i].key).value)
    ensures MustSortJson(JObj(ma)) == MustSortJson(JObj(mb))
  {
    var ca, cb := CanonMembers(ma), CanonMembers(mb);
    SortMembersSorted(ca);
    SortMembersSorted(cb);
    SortMembersDistinct(ca);
    SortMembersDistinct(cb);
    forall k ensures Find(SortMembers(ca), k) == Find(SortMembers(cb), k) {
      CanonFindAgree(ma, mb, k);
    }
    SortedUniqueByFind(SortMembers(ca), SortMembers(cb));
  }

  /** One key of CanonObjectsAgree: both sorted canonical lists look it up alike. */
  lemma CanonFindAgree(ma: seq<Member>, mb: seq<Member>, k: string)
    requires DistinctKeys(ma) && DistinctKeys(mb)
    requires forall k :: k in KeysOf(ma) <==> k in KeysOf(mb)
    requires forall i :: 0 <= i < |ma| ==>
      Find(mb, ma[i].key).Some? && MustSortJson(ma[i].value) == MustSortJson(Find(mb, ma[i].key).value)
    ensures Find(SortMembers(CanonMembers(ma)), k) == Find(SortMembers(CanonMembers(mb)), k)
  {
    FindSortMembers(CanonMembers(ma), k);
    FindSortMembers(CanonMembers(mb), k);
    FindCanonMembers(ma, k);
    FindCanonMembers(mb, k);
    if k in KeysOf(ma) {
      var i :| 0 <= i < |KeysOf(ma)| && KeysOf(ma)[i] == k;
      FindAt(ma, i);
    }
  }

  /**
   * The canonicaliser ignores member order at every depth: values that
   * differ only in the order of object members have the same canonical form.
   */
  lemma {:induction false} MustSortJsonIgnoresKeyOrder(a: Json, b: Json)
    requires SameUpToOrder(a, b)
    ensures MustSortJson(a) == MustSortJson(b)
    decreases a
  {
    match a
    case JArr(xs) =>
      forall i | 0 <= i < |xs| ensures MustSortJson(xs[i]) == MustSortJson(b.items[i]) {
        MustSortJsonIgnoresKeyOrder(xs[i], b.items[i]);
      }
      assert MustSortJson(a).items == MustSortJson(b).items;
    case JObj(ma) =>
      forall i | 0 <= i < |ma| ensures MustSortJson(ma[i].value) == MustSortJson(Find(b.members, ma[i].key).value) {
        MustSortJsonIgnoresKeyOrder(ma[i].value, Find(b.members, ma[i].key).value);
      }
      CanonObjectsAgree(ma, b.members);
    case _ =>
  }

  /**
   * Objects whose members agree position by position on the key and on the
   * canonical value have the same canonical form.
   */
  lemma MustSortJsonPointwise(a: seq<Member>, b: seq<Member>)
    requires |a| == |b|
    requires forall i :: 0 <= i < |a| ==> a[i].key == b[i].key && MustSortJson(a[i].value) == MustSortJson(b[i].value)
    ensures MustSortJson(JObj(a)) == MustSortJson(JObj(b))
  {
    assert CanonMembers(a) == CanonMembers(b);
    MustSortJsonObject(a);
    MustSortJsonObject(b);
  }

  /** The keys and lookups of a two-member list with different keys. */
  lemma TwoMembers(m: Member, n: Member)
    requires m.key != n.key
    ensures KeysOf([m, n]) == [m.key, n.key] && DistinctKeys([m, n])
    ensures Find([m, n], m.key) == Some(m.value) && Find([m, n], n.key) == Some(n.value)
  {
    assert [m, n][1..] == [n];
    assert [m.key, n.key][1..] == [n.key];
  }

  /** A two-member object is related to the same object with its members swapped. */
  lemma SwapTwoMembers(k1: string, x1: Json, x2: Json, k2: string, y1: Json, y2: Json)
    requires k1 != k2 && SameUpToOrder(x1, x2) && SameUpToOrder(y1, y2)
    ensures SameUpToOrder(JObj([Member(k1, x1), Member(k2, y1)]), JObj([Member(k2, y2), Member(k1, x2)]))
  {
    var a, b := [Member(k1, x1), Member(k2, y1)], [Member(k2, y2), Member(k1, x2)];
    TwoMembers(a[0], a[1]);
    TwoMembers(b[0], b[1]);
    assert forall k :: k in KeysOf(a) <==> k in KeysOf(b) by {
      assert KeysOf(a) == [k1, k2] && KeysOf(b) == [k2, k1];
    }
    assert forall i :: 0 <= i < |a| ==> Find(b, a[i].key).Some? && SameUpToOrder(a[i].value, Find(b, a[i].key).value);
    SameUpToOrderObject(a, b);
  }

  /** The object case of SameUpToOrder, assembled from its parts. */
  lemma SameUpToOrderObject(ma: seq<Member>, mb: seq<Member>)
    requires DistinctKeys(ma) && DistinctKeys(mb)
    requires forall k :: k in KeysOf(ma) <==> k in KeysOf(mb)
    requires forall i :: 0 <= i < |ma| ==>
      Find(mb, ma[i].key).Some? && SameUpToOrder(ma[i].value, Find(mb, ma[i].key).value)
    ensures SameUpToOrder(JObj(ma), JObj(mb))
  {
  }

  /**
   * An amino-style message whose inner `value` object is written in another
   * order, with its outer members swapped as well, canonicalises identically.
   */
  lemma NestedReorderExample()
    ensures var inner1 := JObj([Member("b", JNum(2)), Member("a", JNum(1))]);
            var inner2 := JObj([Member("a", JNum(1)), Member("b", JNum(2))]);
            MustSortJson(JObj([Member("type", JStr("t")), Member("value", inner1)]))
            == MustSortJson(JObj([Member("value", inner2), Member("type", JStr("t"))]))
  {
    var inner1 := JObj([Member("b", JNum(2)), Member("a", JNum(1))]);
    var inner2 := JObj([Member("a", JNum(1)), Member("b", JNum(2))]);
    SwapTwoMembers("b", JNum(2), JNum(2), "a", JNum(1), JNum(1));
    SwapTwoMembers("type", JStr("t"), JStr("t"), "value", inner1, inner2);
    MustSortJsonIgnoresKeyOrder(
      JObj([Member("type", JStr("t")), Member("value", inner1)]),
      JObj([Member("value", inner2), Member("type", JStr("t"))]));
  }

  /** Keys come out in increasing order (the example of a document written sequence-first). */
  lemma SortExample()
    ensures MustSortJson(JObj([Member("sequence", JNum(1)), Member("account_number", JNum(2))]))
         == JObj([Member("account_number", JNum(2)), Member("sequence", JNum(1))])
  {
    var seqM, accM := Member("sequence", JNum(1)), Member("account_number", JNum(2));
    MustSortJsonObject([seqM, accM]);
    assert CanonMembers([seqM, accM]) == [seqM, accM];
    SortPairOutOfOrder(seqM, accM);
  }

  /** Two members whose keys are out of order are swapped. */
  lemma SortPairOutOfOrder(m: Member, n: Member)
    requires !KeyLe(m.key, n.key)
    ensures SortMembers([m, n]) == [n, m]
  {
    assert [m, n][1..] == [n];
    assert [n][1..] == [];
    assert SortMembers([n]) == [n];
    assert Insert(m, [n]) == [n] + Insert(m, []);
  }
}
