/** The chained hash table of HashMap.c: buckets of linked entries that growing relinks in place. Keys are machine
    words; in a string map a key points to a String, and its text decides equality. */
module HashMap {
  import opened Sums

  const EEXIST: int := 17
  const ENOENT: int := 2
  const ENOMEM: int := 12
  const WORD: nat := 0x1_0000_0000_0000_0000
  const GOLDEN: nat := 11400714819323198485
  const HASHMAP_MIN_CAP_BITS: nat := 2
  const MAX_CAP_BITS: nat := 60 // calloc refuses 2^61 pointers of 8 bytes

  function Pow2(n: nat): (r: nat)
    ensures r > 0
  {
    if n == 0 then 1 else 2 * Pow2(n - 1)
  }

  lemma {:induction false} Pow2Split(a: nat, b: nat)
    ensures Pow2(a + b) == Pow2(a) * Pow2(b)
  {
    if a > 0 {
      Pow2Split(a - 1, b);
      assert Pow2(a + b) == 2 * Pow2(a - 1 + b);
    }
  }

  /** The product of hash_bits, as wide as a machine word. */
  function Mix(h: nat): (x: nat)
    ensures x < WORD
  {
    (h * GOLDEN) % WORD
  }

  /** A right shift that leaves the bits above `d`. */
  function Shift(x: nat, d: nat): nat
    requires d > 0
  {
    x / d
  }

  /** hash_bits: the upper `bits` bits of the product. */
  function HashBits(h: nat, bits: nat): nat
    requires bits <= 64
  {
    if bits == 0 then 0 else Shift(Mix(h), Pow2(64 - bits))
  }

  /** Every bucket index is below the capacity. */
  lemma HashBitsBelow(h: nat, bits: nat)
    requires bits <= 64
    ensures HashBits(h, bits) < Pow2(bits)
  {
    hide Mix;
    if bits > 0 {
      Pow2Split(bits, 64 - bits);
      WordIsPow2();
      DivBelow(Mix(h), Pow2(bits), Pow2(64 - bits));
    }
  }

  lemma DivBelow(x: nat, a: nat, b: nat)
    requires b > 0 && x < a * b
    ensures x / b < a
  {
    var q := x / b;
    assert q >= a ==> q * b >= a * b;
  }

  lemma SmallPow2()
    ensures Pow2(0) == 1 && Pow2(2) == 4 && Pow2(8) == 256
  {
    assert Pow2(4) == 16;
    assert Pow2(6) == 64;
  }

  lemma WordIsPow2()
    ensures Pow2(64) == WORD
  {
    hide Pow2;
    assert Pow2(8) == 256 by { SmallPow2(); }
    Pow2Split(8, 8);
    Pow2Split(16, 16);
    Pow2Split(32, 32);
  }

  // ---------------------------------------------------------------- keys

  /** A key: the word itself and, in a string map, the bytes of the String it points to. */
  datatype Key = Key(id: int, text: seq<Byte>)

  /** What makes two keys the same. */
  datatype Canon = Number(id: int) | Name(text: seq<Byte>)

  /** str_hash as a fold from the left, starting with `h`. */
  function HashFrom(h: nat, s: seq<Byte>): nat
    decreases s
  {
    if s == [] then h else HashFrom((h * 31 + s[0]) % WORD, s[1..])
  }

  function CanonOf(strings: bool, k: Key): Canon {
    if strings then Name(CString(k.text)) else Number(k.id)
  }

  function HashOf(strings: bool, k: Key): nat {
    if strings then HashFrom(0, CString(k.text)) else k.id % WORD
  }

  /** The bucket of every key that means `c`. */
  function Home(c: Canon, bits: nat): nat
    requires bits <= 64
  {
    HashBits(match c case Number(id) => id % WORD case Name(text) => HashFrom(0, text), bits)
  }

  /** Keys that compare equal have equal hashes and fall into the same bucket, which exists. */
  lemma EqualKeysShareBuckets(strings: bool, k: Key, bits: nat)
    requires bits <= 64
    ensures HashBits(HashOf(strings, k), bits) == Home(CanonOf(strings, k), bits) < Pow2(bits)
  {
    HashBitsBelow(HashOf(strings, k), bits);
  }

  function CharAt(s: seq<Byte>, i: nat): Byte { if i < |s| then s[i] else 0 }

  /** The C string from position `i` on. */
  lemma {:induction false} CStringStep(s: seq<Byte>, i: nat)
    requires i <= |s|
    ensures CharAt(s, i) == 0 ==> CString(s[i..]) == []
    ensures CharAt(s, i) != 0 ==> i < |s| && CString(s[i..]) == [s[i]] + CString(s[i + 1..])
  {
    if i < |s| { assert s[i..][1..] == s[i + 1..]; }
  }

  /** str_hash. */
  method StrHash(s: seq<Byte>) returns (h: nat)
    ensures h == HashFrom(0, CString(s))
  {
    h := 0;
    var i := 0;
    assert s[0..] == s;
    while CharAt(s, i) != 0
      invariant i <= |s| && HashFrom(h, CString(s[i..])) == HashFrom(0, CString(s))
      decreases |s| - i
    {
      CStringStep(s, i);
      assert ([s[i]] + CString(s[i + 1..]))[1..] == CString(s[i + 1..]);
      h := (h * 31 + s[i]) % WORD;
      i := i + 1;
    }
    CStringStep(s, i);
  }

  /** strcmp, as far as equality goes. */
  method StrEqual(a: seq<Byte>, b: seq<Byte>) returns (equal: bool)
    ensures equal <==> CString(a) == CString(b)
  {
    var i := 0;
    assert a[0..] == a && b[0..] == b;
    while CharAt(a, i) == CharAt(b, i) && CharAt(a, i) != 0
      invariant i <= |a| && i <= |b|
      invariant CString(a) == CString(b) <==> CString(a[i..]) == CString(b[i..])
      decreases |a| - i
    {
      CStringStep(a, i);
      CStringStep(b, i);
      TailsDecide(a[i], CString(a[i + 1..]), CString(b[i + 1..]));
      i := i + 1;
    }
    CStringStep(a, i);
    CStringStep(b, i);
    equal := CharAt(a, i) == CharAt(b, i);
    if !equal && CharAt(a, i) != 0 && CharAt(b, i) != 0 {
      assert CString(a[i..])[0] != CString(b[i..])[0];
    }
  }

  lemma TailsDecide(c: Byte, s: seq<Byte>, t: seq<Byte>)
    ensures [c] + s == [c] + t <==> s == t
  {
    if [c] + s == [c] + t {
      assert s == ([c] + s)[1..] == ([c] + t)[1..] == t;
    }
  }

  // ---------------------------------------------------------------- chains

  datatype Strategy = Add | Set | Update

  class Entry {
    var key: Key
    var value: int
    var next: Entry?

    constructor (key: Key, value: int)
      ensures this.key == key && this.value == value && next == null
    {
      this.key, this.value, next := key, value, null;
    }
  }

  function At(chain: seq<Entry>, i: nat): Entry? { if i < |chain| then chain[i] else null }

  /** The entries from `head` on are exactly `chain`. */
  ghost predicate Linked(chain: seq<Entry>, head: Entry?)
    reads chain`next
  {
    head == At(chain, 0) && forall i :: 0 <= i < |chain| ==> chain[i].next == At(chain, i + 1)
  }

  ghost predicate Distinct(chain: seq<Entry>) {
    forall i, j :: 0 <= i < j < |chain| ==> chain[i] != chain[j]
  }

  ghost predicate Within(chains: seq<seq<Entry>>, nodes: set<Entry>) {
    forall b, i :: 0 <= b < |chains| && 0 <= i < |chains[b]| ==> chains[b][i] in nodes
  }

  ghost predicate Apart(chains: seq<seq<Entry>>, h: nat)
    requires h < |chains|
  {
    && Distinct(chains[h])
    && forall b, j :: 0 <= b < |chains| && b != h && 0 <= j < |chains[b]| ==> chains[b][j] !in chains[h]
  }

  /** Every bucket links exactly its chain. */
  ghost predicate AllLinked(chains: seq<seq<Entry>>, heads: seq<Entry?>, nodes: set<Entry>)
    requires |heads| == |chains| && Within(chains, nodes)
    reads nodes`next
  {
    forall b :: 0 <= b < |chains| ==> Linked(chains[b], heads[b])
  }

  /** The abstract side of a table: the entries of each bucket in order, what the key of each entry means, and back. */
  datatype Shape = Shape(chains: seq<seq<Entry>>, names: map<Entry, Canon>, entries: map<Canon, Entry>) {
    /** Every entry is in the bucket of what its key means, once, and nothing else is. */
    ghost predicate Placed(bits: nat)
      requires bits <= 64
    {
      && Within(chains, names.Keys)
      && (forall b :: 0 <= b < |chains| ==> Distinct(chains[b]))
      && (forall b, i :: 0 <= b < |chains| && 0 <= i < |chains[b]| ==> Home(names[chains[b][i]], bits) == b)
      && (forall e :: e in names ==> Home(names[e], bits) < |chains| && e in chains[Home(names[e], bits)])
    }

    /** Each name has one entry. */
    ghost predicate Inverse() {
      && (forall e :: e in names ==> names[e] in entries && entries[names[e]] == e)
      && (forall c :: c in entries ==> entries[c] in names && names[entries[c]] == c)
    }

    ghost predicate Consistent(bits: nat)
      requires bits <= 64
    {
      Placed(bits) && Inverse()
    }

    lemma IsWithin(bits: nat)
      requires bits <= 64 && Consistent(bits)
      ensures Within(chains, names.Keys)
    {
    }

    /** A new entry at the front of its bucket. */
    ghost function AddFirst(e: Entry, c: Canon, h: nat): Shape
      requires h < |chains|
    {
      Shape(chains[h := [e] + chains[h]], names[e := c], entries[c := e])
    }

    lemma AddFirstFits(e: Entry, c: Canon, bits: nat)
      requires bits <= 64 && Consistent(bits) && e !in names && c !in entries && Home(c, bits) < |chains|
      ensures AddFirst(e, c, Home(c, bits)).Consistent(bits)
      ensures |entries[c := e]| == |entries| + 1 && names[e := c].Keys == names.Keys + {e}
    {
      hide Home, Placed;
      AddFirstPlaced(e, c, bits);
      var s := AddFirst(e, c, Home(c, bits));
      assert s.Inverse() by { AddFirstInverse(e, c, Home(c, bits)); }
      hide Inverse;
    }

    /** No entry of bucket `h` is anywhere else. */
    lemma OnePlace(bits: nat, h: nat)
      requires bits <= 64 && Consistent(bits) && h < |chains|
      ensures Apart(chains, h)
    {
      hide Home;
    }

    /** Entry `i` of bucket `h` gone. */
    ghost function Remove(h: nat, i: nat): Shape
      requires h < |chains| && i < |chains[h]| && chains[h][i] in names
    {
      Shape(chains[h := chains[h][..i] + chains[h][i + 1..]], names - {chains[h][i]}, entries - {names[chains[h][i]]})
    }

    lemma RemoveFits(h: nat, i: nat, bits: nat)
      requires bits <= 64 && Consistent(bits) && h < |chains| && i < |chains[h]|
      ensures chains[h][i] in names && names[chains[h][i]] in entries && Remove(h, i).Consistent(bits)
      ensures |Remove(h, i).entries| == |entries| - 1 && Remove(h, i).names.Keys == names.Keys - {chains[h][i]}
    {
      hide Home;
      var e := chains[h][i];
      assert e in names && Home(names[e], bits) == h;
      RemovePlaced(h, i, bits);
      assert Remove(h, i).entries.Keys == entries.Keys - {names[e]};
    }

    lemma RemovePlaced(h: nat, i: nat, bits: nat)
      requires bits <= 64 && Placed(bits) && h < |chains| && i < |chains[h]|
      ensures chains[h][i] in names && Remove(h, i).Placed(bits)
    {
      hide Home;
      var e, chain := chains[h][i], chains[h];
      var rest := chain[..i] + chain[i + 1..];
      var r := Remove(h, i);
      forall j | 0 <= j < |rest| ensures rest[j] == chain[if j < i then j else j + 1] && rest[j] != e {
      }
      assert Distinct(rest);
      forall x | x in r.names ensures x in r.chains[Home(names[x], bits)] {
        if Home(names[x], bits) == h {
          var k :| 0 <= k < |chain| && chain[k] == x;
          assert rest[if k < i then k else k - 1] == x;
        }
      }
      forall b, j | 0 <= b < |r.chains| && 0 <= j < |r.chains[b]|
        ensures r.chains[b][j] in r.names && Home(r.names[r.chains[b][j]], bits) == b
      {
        if b != h { assert Home(names[chains[b][j]], bits) == b; }
      }
    }

    lemma AddFirstInverse(e: Entry, c: Canon, h: nat)
      requires Inverse() && e !in names && c !in entries && h < |chains|
      ensures AddFirst(e, c, h).Inverse()
    {
    }

    lemma AddFirstPlaced(e: Entry, c: Canon, bits: nat)
      requires bits <= 64 && Placed(bits) && e !in names && Home(c, bits) < |chains|
      ensures AddFirst(e, c, Home(c, bits)).Placed(bits)
    {
      hide Home;
      var h := Home(c, bits);
      var d := chains[h := [e] + chains[h]];
      assert e !in chains[h];
      forall x | x in names ensures x in d[Home(names[x], bits)] {
        if Home(names[x], bits) == h { assert x in [e] + chains[h]; }
      }
      assert e in d[h];
    }
  }

  ghost predicate InTable(s: Shape, h: nat, i: nat) {
    h < |s.chains| && i < |s.chains[h]| && s.chains[h][i] in s.names
  }

  /** The keys and values of some entries, in order. */
  ghost predicate Lists(visited: seq<(Key, int)>, order: seq<Entry>)
    reads order`key, order`value
  {
    |visited| == |order| && forall i :: 0 <= i < |order| ==> visited[i] == (order[i].key, order[i].value)
  }

  /** hashmap_add_entry at the head of bucket `h`. */
  method PushEntry(buckets: array<Entry?>, h: nat, e: Entry)
    requires h < buckets.Length
    modifies buckets, e`next
    ensures buckets[..] == old(buckets[..])[h := e] && e.next == old(buckets[h])
  {
    e.next := buckets[h];
    buckets[h] := e;
  }

  /** hashmap_del_entry: `prev` null stands for the bucket's own pointer. */
  method BypassEntry(buckets: array<Entry?>, h: nat, prev: Entry?, entry: Entry)
    requires h < buckets.Length && prev != entry
    modifies buckets, entry`next, (if prev == null then {} else {prev})`next
    ensures buckets[..] == old(if prev == null then buckets[..][h := entry.next] else buckets[..])
    ensures prev != null ==> prev.next == old(entry.next)
  {
    if prev == null {
      buckets[h] := entry.next;
    } else {
      prev.next := entry.next;
    }
    entry.next := null;
  }

  class HashMapBase {
    const strings: bool
    var buckets: array?<Entry?>
    var capacity: nat
    var cap_bits: nat
    var size: nat
    ghost var shape: Shape

    function CanonKey(k: Key): Canon { CanonOf(strings, k) }

    ghost predicate Sizes()
      reads this
    {
      && cap_bits <= MAX_CAP_BITS && |shape.chains| == capacity
      && (if capacity == 0 then buckets == null && cap_bits == 0
          else buckets != null && buckets.Length == capacity == Pow2(cap_bits) && cap_bits >= HASHMAP_MIN_CAP_BITS)
      && size == |shape.entries| && 4 * size / 3 <= capacity
    }

    ghost function Heads(): seq<Entry?>
      reads this`buckets, buckets
    {
      if buckets == null then [] else buckets[..]
    }

    ghost predicate Keyed()
      reads this`shape, shape.names.Keys`key
    {
      forall e :: e in shape.names ==> CanonKey(e.key) == shape.names[e]
    }

    ghost predicate Valid()
      reads this, buckets, shape.names.Keys
    {
      && Sizes() && shape.Consistent(cap_bits) && Keyed()
      && AllLinked(shape.chains, Heads(), shape.names.Keys)
    }

    /** The finite map that the table stands for. */
    ghost function Model(): map<Canon, (Key, int)>
      requires shape.Inverse()
      reads this`shape, shape.names.Keys
    {
      map c | c in shape.entries :: (shape.entries[c].key, shape.entries[c].value)
    }

    constructor (strings: bool)
      ensures Valid() && Model() == map[] && capacity == 0 && shape.names == map[] && this.strings == strings
    {
      this.strings := strings;
      buckets, capacity, cap_bits, size := null, 0, 0, 0;
      shape := Shape([], map[], map[]);
    }

    /** The hash that the map was built with. */
    method Hash(key: Key) returns (h: nat)
      ensures h == HashOf(strings, key)
    {
      if strings {
        h := StrHash(key.text);
      } else {
        h := key.id % WORD;
      }
    }

    /** The equality that the map was built with. */
    method Equal(a: Key, b: Key) returns (equal: bool)
      ensures equal <==> CanonKey(a) == CanonKey(b)
    {
      if strings {
        equal := StrEqual(a.text, b.text);
      } else {
        equal := a.id == b.id;
      }
    }

    method Bucket(key: Key, bits: nat) returns (h: nat)
      requires bits <= 64
      ensures h == Home(CanonKey(key), bits) < Pow2(bits)
    {
      hide Home, HashBits, Pow2, HashOf;
      var x := Hash(key);
      EqualKeysShareBuckets(strings, key, bits);
      h := HashBits(x, bits);
    }

    /** What an entry in a chain is linked to and stands for. */
    lemma NodeAt(b: nat, i: nat)
      requires Valid() && b < capacity && i < |shape.chains[b]|
      ensures var e := shape.chains[b][i];
              && e in shape.names && e.next == At(shape.chains[b], i + 1)
              && CanonKey(e.key) in shape.entries && shape.entries[CanonKey(e.key)] == e
    {
      hide Home, CanonOf;
      assert Linked(shape.chains[b], Heads()[b]);
    }

    /** The entry of a name is in its bucket. */
    lemma HomeOf(c: Canon) returns (k: nat)
      requires Valid() && c in shape.entries
      ensures Home(c, cap_bits) < capacity && k < |shape.chains[Home(c, cap_bits)]|
      ensures shape.chains[Home(c, cap_bits)][k] == shape.entries[c] && CanonKey(shape.entries[c].key) == c
    {
      hide Home, CanonOf, AllLinked;
      k :| k < |shape.chains[Home(c, cap_bits)]| && shape.chains[Home(c, cap_bits)][k] == shape.entries[c];
    }

    /** hashmap_find_entry. `prev` is the entry before it in its chain, or null when the bucket points to it. */
    method FindEntry(key: Key, h: nat) returns (prev: Entry?, entry: Entry?, ghost i: nat)
      requires Valid() && h == Home(CanonKey(key), cap_bits) < Pow2(cap_bits)
      ensures entry != null <==> CanonKey(key) in shape.entries
      ensures entry != null ==>
                && entry == shape.entries[CanonKey(key)]
                && h < capacity && i < |shape.chains[h]| && shape.chains[h][i] == entry
      ensures entry != null ==> prev == if i == 0 then null else shape.chains[h][i - 1]
    {
      hide Shape.Consistent, Home, CanonOf, Keyed;
      prev, entry, i := null, null, 0;
      if buckets == null {
        assert size == 0;
        return;
      }
      assert Linked(shape.chains[h], Heads()[h]);
      ghost var chain := shape.chains[h];
      var cur := buckets[h];
      while cur != null
        invariant i <= |chain| && cur == At(chain, i)
        invariant prev == if i == 0 then null else chain[i - 1]
        invariant forall k :: 0 <= k < i ==> CanonKey(chain[k].key) != CanonKey(key)
        decreases |chain| - i
      {
        NodeAt(h, i);
        var equal := Equal(cur.key, key);
        if equal {
          entry := cur;
          return;
        }
        prev, cur, i := cur, cur.next, i + 1;
      }
      if CanonKey(key) in shape.entries {
        var k := HomeOf(CanonKey(key));
        assert false;
      }
    }

    /** HashMapBase_find. */
    method Find(key: Key) returns (found: bool, value: int)
      requires Valid()
      ensures found <==> CanonKey(key) in Model()
      ensures found ==> value == Model()[CanonKey(key)].1
    {
      hide AllLinked, CanonOf;
      var h := Bucket(key, cap_bits);
      var prev, entry, i := FindEntry(key, h);
      if entry == null {
        return false, 0;
      }
      return true, entry.value;
    }

    /** Link in an entry for a new key. */
    method AddEntry(e: Entry, h: nat)
      requires Valid() && e !in shape.names && capacity > 0 && h == Home(CanonKey(e.key), cap_bits) < capacity
      requires CanonKey(e.key) !in shape.entries && (size + 1) * 4 / 3 <= capacity
      modifies this`shape, this`size, buckets, e`next
      ensures Valid() && shape == old(shape.AddFirst(e, CanonKey(e.key), h))
    {
      hide CanonOf, Home, Linked, Shape.Consistent, Within, AllLinked, Keyed, Pow2;
      ghost var s, heads, c := shape, Heads(), CanonKey(e.key);
      s.IsWithin(cap_bits);
      s.AddFirstFits(e, c, cap_bits);
      PushEntry(buckets, h, e);
      LinkFirst(Links(s.chains, heads, s.names.Keys), e, h);
      KeyedWith(e);
      Become(s.AddFirst(e, c, h), size + 1);
    }

    lemma KeyedWith(e: Entry)
      requires Keyed()
      ensures forall x :: x in shape.names[e := CanonKey(e.key)] ==>
                CanonKey(x.key) == shape.names[e := CanonKey(e.key)][x]
    {
      hide CanonOf;
    }

    /** Take over the links that the buckets already have. */
    method Become(ghost r: Shape, newSize: nat)
      requires Sizes() && r.Consistent(cap_bits) && |r.entries| == newSize
      requires |r.chains| == capacity && 4 * newSize / 3 <= capacity
      requires forall e :: e in r.names ==> CanonKey(e.key) == r.names[e]
      requires Within(r.chains, r.names.Keys) && AllLinked(r.chains, Heads(), r.names.Keys)
      modifies this`shape, this`size
      ensures Valid() && shape == r && size == newSize
    {
      hide CanonOf, Home, Linked, Within, Shape.Consistent, Pow2;
      shape := r;
      size := newSize;
    }

    /** Overwrite an entry with an equal key. */
    method Replace(entry: Entry, key: Key, value: int)
      requires Valid() && entry in shape.names && CanonKey(key) == shape.names[entry]
      modifies entry`key, entry`value
      ensures Valid() && Model() == old(Model())[CanonKey(key) := (key, value)]
    {
      hide CanonOf, Home, Shape.Placed, AllLinked, Within, Pow2;
      entry.key := key;
      entry.value := value;
    }

    /** The entry found before, unlinked. */
    method UnlinkEntry(prev: Entry?, entry: Entry, h: nat, ghost i: nat)
      requires Valid() && h < capacity && i < |shape.chains[h]| && shape.chains[h][i] == entry
      requires prev == if i == 0 then null else shape.chains[h][i - 1]
      modifies this`shape, this`size, buckets, shape.names.Keys`next
      ensures Valid() && entry in old(shape.names) && shape == old(shape.Remove(h, i)) && size == old(size) - 1
      ensures shape.entries == old(shape.entries) - {old(shape.names[entry])}
    {
      hide CanonOf, Home, Shape.Consistent, Within, Apart, AllLinked, Linked, Keyed, Pow2;
      ghost var s, heads := shape, Heads();
      s.IsWithin(cap_bits);
      s.RemoveFits(h, i, cap_bits);
      s.OnePlace(cap_bits, h);
      ChainAt(s.chains, heads, s.names.Keys, h, i);
      BypassEntry(buckets, h, prev, entry);
      UnlinkAt(Links(s.chains, heads, s.names.Keys), h, i);
      KeyedWithout(s.Remove(h, i));
      Become(s.Remove(h, i), size - 1);
    }

    lemma KeyedWithout(r: Shape)
      requires Keyed() && forall e :: e in r.names ==> e in shape.names && r.names[e] == shape.names[e]
      ensures forall e :: e in r.names ==> CanonKey(e.key) == r.names[e]
    {
      hide CanonOf;
    }

    // ---------------------------------------------------------------- growing

    predicate NeedsToGrow()
      reads this`capacity, this`size
    {
      capacity == 0 || (size + 1) * 4 / 3 > capacity
    }

    /** The inner loop of hashmap_grow: relink one entry into the new buckets. */
    method MoveEntry(newBuckets: array<Entry?>, newBits: nat, cur: Entry, bkt: nat,
                     ghost k: nat, ghost s: Shape, ghost t: Shape)
      returns (ghost u: Shape)
      requires Moving(s, t, newBuckets[..], newBits, cap_bits, bkt, k)
      requires bkt < |s.chains| && k < |s.chains[bkt]| && cur == s.chains[bkt][k] && CanonKey(cur.key) == s.names[cur]
      modifies newBuckets, cur`next
      ensures Moving(s, u, newBuckets[..], newBits, cap_bits, bkt, k + 1) && |u.entries| == |t.entries| + 1
    {
      hide CanonOf, Home, Pow2, AllLinked, Progress, Shape.Consistent, Within, Untouched;
      ghost var heads := newBuckets[..];
      var h := Bucket(cur.key, newBits);
      MoveIsNew(s, t, newBits, cap_bits, bkt, k);
      t.AddFirstFits(cur, s.names[cur], newBits);
      t.IsWithin(newBits);
      PushEntry(newBuckets, h, cur);
      u := t.AddFirst(cur, s.names[cur], h);
      LinkFirst(Links(t.chains, heads, t.names.Keys), cur, h);
      MoveProgress(s, t, cap_bits, bkt, k, h);
      UntouchedAfter(s, cap_bits, bkt, k);
    }

    /** The outer loop's body: relink one bucket. */
    method MoveBucket(newBuckets: array<Entry?>, newBits: nat, bkt: nat, ghost s: Shape, ghost t: Shape)
      returns (ghost u: Shape, ghost moves: nat)
      requires buckets != null && bkt < |s.chains| == buckets.Length && newBuckets != buckets
      requires s == shape && Keyed() && Moving(s, t, newBuckets[..], newBits, cap_bits, bkt, 0)
      requires buckets[bkt] == At(s.chains[bkt], 0)
      modifies newBuckets, shape.names.Keys`next
      ensures Moving(s, u, newBuckets[..], newBits, cap_bits, bkt + 1, 0)
      ensures |u.entries| == |t.entries| + moves
    {
      hide Home, Pow2, AllLinked, Progress, Shape.Consistent, Moving;
      ghost var k, chain := 0, s.chains[bkt];
      u, moves := t, 0;
      var cur := buckets[bkt];
      while cur != null
        invariant k <= |chain| && cur == At(chain, k) && |u.entries| == |t.entries| + moves
        invariant Moving(s, u, newBuckets[..], newBits, cap_bits, bkt, k)
        decreases |chain| - k
      {
        MovingAt(s, u, newBuckets[..], newBits, cap_bits, bkt, k);
        var tmp := cur.next;
        u := MoveEntry(newBuckets, newBits, cur, bkt, k, s, u);
        cur, k, moves := tmp, k + 1, moves + 1;
      }
      BucketDone(s, u, newBuckets[..], newBits, cap_bits, bkt);
    }

    /** hashmap_grow's traversal of all buckets. */
    method MoveAll(newBuckets: array<Entry?>, newBits: nat) returns (ghost t: Shape, ghost moves: nat)
      requires Valid() && newBits <= MAX_CAP_BITS && newBuckets.Length == Pow2(newBits) && newBuckets != buckets
      requires forall b :: 0 <= b < newBuckets.Length ==> newBuckets[b] == null
      modifies newBuckets, shape.names.Keys`next
      ensures t.names == shape.names && t.entries == shape.entries && t.Consistent(newBits) && moves == |shape.entries|
      ensures |t.chains| == Pow2(newBits) && Within(t.chains, t.names.Keys)
      ensures AllLinked(t.chains, newBuckets[..], t.names.Keys)
    {
      hide Home, Pow2, AllLinked, Linked, Within, Progress, Shape.Consistent, Shape.Inverse, Moving, Untouched;
      ghost var s := shape;
      t, moves := Shape(seq(newBuckets.Length, _ => []), map[], map[]), 0;
      NothingMoved(t, newBuckets[..], newBits);
      for bkt := 0 to capacity
        invariant Moving(s, t, newBuckets[..], newBits, cap_bits, bkt, 0) && moves == |t.entries|
      {
        ghost var more;
        t, more := MoveBucket(newBuckets, newBits, bkt, s, t);
        moves := moves + more;
      }
      MovingEnds(s, t, newBuckets[..], newBits, cap_bits);
    }

    lemma NothingMoved(t: Shape, heads: seq<Entry?>, newBits: nat)
      requires Valid() && newBits <= 64 && t.names == map[]
      requires t.entries == map[] && |t.chains| == |heads| == Pow2(newBits)
      requires forall b :: 0 <= b < |heads| ==> heads[b] == null && t.chains[b] == []
      ensures Moving(shape, t, heads, newBits, cap_bits, 0, 0)
      ensures forall b :: 0 <= b < |Heads()| ==> Heads()[b] == At(shape.chains[b], 0)
    {
      hide Home, Pow2, AllLinked, Linked, Within, Progress, Shape.Consistent, Moving, Untouched;
      shape.IsWithin(cap_bits);
      MovingStarts(shape, t, Heads(), heads, newBits, cap_bits);
      HeadsAre(shape.chains, Heads(), shape.names.Keys);
    }

    /** hashmap_grow: every entry is relinked once, and the table stands for the same map. */
    method Grow() returns (err: int, ghost moves: nat)
      requires Valid()
      modifies this, shape.names.Keys`next
      ensures Valid() && shape.names == old(shape.names) && Model() == old(Model()) && size == old(size)
      ensures err == if old(cap_bits) == MAX_CAP_BITS then -ENOMEM else 0
      ensures err != 0 ==> buckets == old(buckets) && capacity == old(capacity)
      ensures err == 0 ==>
                moves == size && cap_bits == (if old(capacity) == 0 then HASHMAP_MIN_CAP_BITS else old(cap_bits) + 1)
      ensures err == 0 ==> fresh(buckets) && (size + 1) * 4 / 3 <= capacity
    {
      hide CanonOf, Home, AllLinked, Linked, Within, Shape.Consistent, Pow2;
      moves := 0;
      var newBits := cap_bits + 1;
      if newBits < HASHMAP_MIN_CAP_BITS {
        newBits := HASHMAP_MIN_CAP_BITS;
      }
      if newBits > MAX_CAP_BITS {
        return -ENOMEM, 0;
      }
      var newCap := Pow2(newBits);
      GrownCapacity(capacity, cap_bits, size);
      var newBuckets := new Entry?[newCap](_ => null);
      ghost var t;
      t, moves := MoveAll(newBuckets, newBits);
      Adopt(newBuckets, newCap, newBits, t);
      err := 0;
    }

    /** hashmap_grow's end: the new buckets replace the old ones. */
    method Adopt(newBuckets: array<Entry?>, newCap: nat, newBits: nat, ghost t: Shape)
      requires Keyed() && t.names == shape.names && t.entries == shape.entries && size == |t.entries|
      requires HASHMAP_MIN_CAP_BITS <= newBits <= MAX_CAP_BITS && t.Consistent(newBits)
      requires newBuckets.Length == |t.chains| == newCap == Pow2(newBits) && 4 * size / 3 <= newCap
      requires Within(t.chains, t.names.Keys) && AllLinked(t.chains, newBuckets[..], t.names.Keys)
      modifies this`capacity, this`cap_bits, this`buckets, this`shape
      ensures Valid() && shape == t && buckets == newBuckets && capacity == newCap && cap_bits == newBits
    {
      hide CanonOf, Home, Linked, Within, Shape.Consistent, Pow2;
      capacity, cap_bits := newCap, newBits;
      buckets := newBuckets;
      shape := t;
    }

    // ---------------------------------------------------------------- the operations

    /** HashMapBase_delete. */
    method Delete(key: Key) returns (found: bool, oldKey: Key, oldValue: int, ghost b: nat, ghost i: nat)
      requires Valid()
      modifies this`shape, this`size, buckets, shape.names.Keys`next
      ensures Valid() && (found <==> CanonKey(key) in old(Model())) && Model() == old(Model()) - {CanonKey(key)}
      ensures found ==> (oldKey, oldValue) == old(Model())[CanonKey(key)]
      ensures size == old(size) - (if found then 1 else 0)
      ensures found ==> InTable(old(shape), b, i) && old(shape).chains[b][i] == old(shape).entries[CanonKey(key)]
      ensures found ==> shape == old(shape).Remove(b, i)
      ensures !found ==> shape == old(shape)
    {
      hide CanonOf, Home, Linked, Within, AllLinked, Keyed, Pow2, Model, Sizes;
      hide Shape.Consistent, Shape.Inverse, Shape.Remove;
      ModelKeys();
      var h := Bucket(key, cap_bits);
      var prev, entry;
      prev, entry, i := FindEntry(key, h);
      b := h;
      if entry == null {
        NothingRemoved(Model(), CanonKey(key));
        return false, Key(0, []), 0, 0, 0;
      }
      oldKey, oldValue := entry.key, entry.value;
      DeleteEntry(prev, entry, h, i, CanonKey(key));
      found := true;
    }

    /** The entry of a key, unlinked and forgotten. */
    method DeleteEntry(prev: Entry?, entry: Entry, h: nat, ghost i: nat, ghost c: Canon)
      requires Valid() && h < capacity && i < |shape.chains[h]| && shape.chains[h][i] == entry
      requires prev == if i == 0 then null else shape.chains[h][i - 1]
      requires c in shape.entries && entry == shape.entries[c]
      modifies this`shape, this`size, buckets, shape.names.Keys`next
      ensures Valid() && InTable(old(shape), h, i) && shape == old(shape).Remove(h, i) && size == old(size) - 1
      ensures Model() == old(Model()) - {c}
    {
      hide CanonOf, Home, Linked, Within, AllLinked, Keyed, Pow2, Shape.Consistent, Shape.Inverse, Shape.Remove, Model;
      ModelKeys();
      NameOf(c);
      assert InTable(shape, h, i);
      UnlinkEntry(prev, entry, h, i);
      ModelKeys();
      ModelShrinks(c);
    }

    twostate lemma ModelShrinks(new c: Canon)
      requires old(shape.Inverse()) && shape.Inverse() && shape.entries == old(shape.entries) - {c}
      requires forall x :: x in old(shape.names) ==> x.key == old(x.key) && x.value == old(x.value)
      ensures Model() == old(Model()) - {c}
    {
    }

    /** HashMapBase_insert. */
    method Insert(key: Key, value: int, strategy: Strategy) returns (err: int, oldKey: Key, oldValue: int)
      requires Valid()
      modifies this, buckets, shape.names.Keys
      ensures Valid()
      ensures err == if CanonKey(key) in old(Model()) then (if strategy == Add then -EEXIST else 0)
                     else if strategy == Update then -ENOENT
                     else if old(NeedsToGrow()) && old(cap_bits) == MAX_CAP_BITS then -ENOMEM
                     else 0
      ensures Model() == if err == 0 then old(Model())[CanonKey(key) := (key, value)] else old(Model())
      ensures CanonKey(key) in old(Model()) ==> (oldKey, oldValue) == old(Model())[CanonKey(key)]
    {
      hide CanonOf, Home, Linked, Within, AllLinked, Keyed, Pow2, Shape.Consistent;
      ModelKeys();
      oldKey, oldValue := Key(0, []), 0;
      var h := Bucket(key, cap_bits);
      var prev, entry, i := FindEntry(key, h);
      if entry == null {
        if strategy == Update {
          return -ENOENT, oldKey, oldValue;
        }
        err := InsertNew(key, value);
        return;
      }
      oldKey, oldValue := entry.key, entry.value;
      if strategy == Add {
        return -EEXIST, oldKey, oldValue;
      }
      NameOf(CanonKey(key));
      Replace(entry, key, value);
      err := 0;
    }

    /** The rest of HashMapBase_insert, for a key that is not in the table. */
    method InsertNew(key: Key, value: int) returns (err: int)
      requires Valid() && CanonKey(key) !in shape.entries
      modifies this, buckets, shape.names.Keys`next
      ensures Valid()
      ensures err == if old(NeedsToGrow()) && old(cap_bits) == MAX_CAP_BITS then -ENOMEM else 0
      ensures Model() == if err == 0 then old(Model())[CanonKey(key) := (key, value)] else old(Model())
    {
      hide CanonOf, Home, Linked, Within, AllLinked, Keyed, Pow2, Shape.Consistent;
      ModelKeys();
      if NeedsToGrow() {
        ghost var moves;
        err, moves := Grow();
        if err != 0 {
          return;
        }
      }
      AddNew(key, value);
      err := 0;
    }

    method AddNew(key: Key, value: int)
      requires Valid() && CanonKey(key) !in shape.entries && !NeedsToGrow()
      modifies this`shape, this`size, buckets
      ensures Valid() && Model() == old(Model())[CanonKey(key) := (key, value)]
    {
      hide CanonOf, Home, Linked, Within, AllLinked, Keyed, Pow2, Shape.Consistent, Model, Shape.Inverse;
      ModelKeys();
      var h := Bucket(key, cap_bits);
      var e := new Entry(key, value);
      AddEntry(e, h);
      ModelKeys();
      ModelGrows(e, CanonKey(key));
    }

    twostate lemma ModelGrows(new e: Entry, new c: Canon)
      requires old(shape.Inverse()) && shape.Inverse() && shape.entries == old(shape.entries)[c := e]
      requires forall x :: x in old(shape.names) ==> x.key == old(x.key) && x.value == old(x.value)
      ensures Model() == old(Model())[c := (e.key, e.value)]
    {
    }

    /** The map has one key per entry, and `size` counts them. */
    lemma ModelKeys()
      requires Valid()
      ensures shape.Inverse() && Model().Keys == shape.entries.Keys && |Model()| == size && cap_bits <= MAX_CAP_BITS
      ensures forall c :: c in shape.entries ==> Model()[c] == (shape.entries[c].key, shape.entries[c].value)
    {
      hide CanonOf, Home, AllLinked, Keyed, Pow2, Shape.Placed;
      assert Model().Keys == shape.entries.Keys;
    }

    lemma NameOf(c: Canon)
      requires Valid() && c in shape.entries
      ensures shape.entries[c] in shape.names && shape.names[shape.entries[c]] == c
    {
      hide CanonOf, Home, AllLinked, Keyed, Pow2, Shape.Placed;
    }

    /** HashMapBase_iterator: the arguments of the callbacks. Every key of the map is visited once, with its value. */
    method Iterate() returns (visited: seq<(Key, int)>)
      requires Valid()
      ensures forall i, j :: 0 <= i < j < |visited| ==> CanonKey(visited[i].0) != CanonKey(visited[j].0)
      ensures forall x :: x in visited ==> CanonKey(x.0) in Model() && Model()[CanonKey(x.0)] == x
      ensures forall c :: c in Model() ==> Model()[c] in visited
    {
      hide CanonOf, Home, Linked, AllLinked, Keyed, Pow2, Shape.Consistent, Within, Distinct, Flatten, Model;
      ghost var order := [];
      visited := [];
      FlattenNone(shape.chains);
      for bkt := 0 to capacity
        invariant order == Flatten(shape.chains[..bkt]) && Lists(visited, order)
      {
        var more := IterateBucket(bkt);
        FlattenNext(shape.chains, bkt);
        visited, order := visited + more, order + shape.chains[bkt];
      }
      FlattenIsExact(shape, cap_bits, capacity);
      AllBelow(shape, cap_bits);
      VisitedIsModel(visited, order);
    }

    /** A list of all the entries, each once, is a list of the map. */
    lemma VisitedIsModel(visited: seq<(Key, int)>, order: seq<Entry>)
      requires Valid() && Distinct(order) && (forall e :: e in order <==> e in shape.names) && Lists(visited, order)
      ensures forall i, j :: 0 <= i < j < |visited| ==> CanonKey(visited[i].0) != CanonKey(visited[j].0)
      ensures forall x :: x in visited ==> CanonKey(x.0) in Model() && Model()[CanonKey(x.0)] == x
      ensures forall c :: c in Model() ==> Model()[c] in visited
    {
      hide CanonOf, Home, AllLinked, Pow2, Shape.Placed;
      forall i | 0 <= i < |visited|
        ensures CanonKey(visited[i].0) in shape.entries && shape.entries[CanonKey(visited[i].0)] == order[i]
      {
        assert order[i] in shape.names;
      }
      forall c | c in shape.entries ensures Model()[c] in visited {
        var k :| 0 <= k < |order| && order[k] == shape.entries[c];
        assert visited[k] == Model()[c];
      }
    }

    /** The inner loop of HashMapBase_iterator. */
    method IterateBucket(bkt: nat) returns (visited: seq<(Key, int)>)
      requires Valid() && bkt < capacity
      ensures bkt < |shape.chains| && Lists(visited, shape.chains[bkt])
    {
      hide CanonOf, Home, Linked, AllLinked, Keyed, Pow2, Shape.Consistent, Within;
      visited := [];
      ChainLinked(bkt);
      ghost var chain, k := shape.chains[bkt], 0;
      var cur := buckets[bkt];
      while cur != null
        invariant k <= |chain| && cur == At(chain, k) && Lists(visited, chain[..k])
        decreases |chain| - k
      {
        var tmp := cur.next;
        visited := visited + [(cur.key, cur.value)];
        cur, k := tmp, k + 1;
      }
      assert chain[..k] == chain;
    }

    lemma ChainLinked(b: nat)
      requires Valid() && b < capacity
      ensures b < |shape.chains| && buckets[b] == At(shape.chains[b], 0)
      ensures forall i :: 0 <= i < |shape.chains[b]| ==> shape.chains[b][i].next == At(shape.chains[b], i + 1)
    {
      hide CanonOf, Home, Keyed, Pow2, Shape.Placed;
      assert Linked(shape.chains[b], Heads()[b]);
    }

    /** HashMapBase_clear deletes while it traverses. */
    method Clear()
      requires Valid()
      modifies this`shape, this`size, buckets, shape.names.Keys`next
      ensures Valid() && Model() == map[] && size == 0
    {
      hide CanonOf, Home, Linked, AllLinked, Keyed, Pow2, Shape.Consistent, Within, Model, Shape.Remove;
      for bkt := 0 to capacity
        invariant Valid() && shape.names.Keys <= old(shape.names.Keys)
        invariant forall b :: 0 <= b < bkt ==> shape.chains[b] == []
      {
        ClearBucket(bkt);
      }
      NothingLeft();
    }

    /** The inner loop of HashMapBase_clear: the next entry is read before the current one goes. */
    method ClearBucket(bkt: nat)
      requires Valid() && bkt < capacity
      modifies this`shape, this`size, buckets, shape.names.Keys`next
      ensures Valid() && shape.names.Keys <= old(shape.names.Keys)
      ensures |shape.chains| == old(|shape.chains|) && shape.chains[bkt] == []
      ensures forall b :: 0 <= b < |shape.chains| && b != bkt ==> shape.chains[b] == old(shape.chains[b])
    {
      hide CanonOf, Home, Linked, AllLinked, Keyed, Pow2, Shape.Consistent, Within, Model, Shape.Remove;
      ChainLinked(bkt);
      var cur := buckets[bkt];
      while cur != null
        invariant Valid() && shape.names.Keys <= old(shape.names.Keys) && |shape.chains| == old(|shape.chains|)
        invariant forall b :: 0 <= b < |shape.chains| && b != bkt ==> shape.chains[b] == old(shape.chains[b])
        invariant cur == At(shape.chains[bkt], 0)
        decreases |shape.chains[bkt]|
      {
        var tmp := DeleteHead(bkt, cur);
        cur := tmp;
      }
    }

    /** The body of that loop. */
    method DeleteHead(bkt: nat, cur: Entry) returns (tmp: Entry?)
      requires Valid() && bkt < capacity && cur == At(shape.chains[bkt], 0)
      modifies this`shape, this`size, buckets, shape.names.Keys`next
      ensures Valid() && shape.names.Keys <= old(shape.names.Keys)
      ensures shape.chains == old(shape.chains[bkt := shape.chains[bkt][1..]]) && tmp == At(shape.chains[bkt], 0)
    {
      hide CanonOf, Home, Linked, AllLinked, Keyed, Pow2, Shape.Consistent, Within, Model, Shape.Remove;
      ChainLinked(bkt);
      NodeAt(bkt, 0);
      ModelKeys();
      ghost var s := shape;
      tmp := cur.next;
      ghost var b, i;
      var found, oldKey, oldValue;
      found, oldKey, oldValue, b, i := Delete(cur.key);
      HeadRemoved(s, b, i, cap_bits, bkt);
    }

    lemma NothingLeft()
      requires Valid() && forall b :: 0 <= b < capacity ==> shape.chains[b] == []
      ensures Model() == map[] && size == 0
    {
      hide CanonOf, Home, AllLinked, Keyed, Pow2;
      ModelKeys();
      assert shape.entries.Keys == {};
    }
  }

  lemma NothingRemoved(m: map<Canon, (Key, int)>, c: Canon)
    requires c !in m
    ensures m - {c} == m
  {
  }

  // ---------------------------------------------------------------- traversals

  /** The entries in bucket order. */
  ghost function Flatten(chains: seq<seq<Entry>>): seq<Entry> {
    if chains == [] then [] else Flatten(chains[..|chains| - 1]) + chains[|chains| - 1]
  }

  lemma FlattenNone(chains: seq<seq<Entry>>)
    ensures Flatten(chains[..0]) == [] && chains[..|chains|] == chains
  {
  }

  lemma FlattenNext(chains: seq<seq<Entry>>, b: nat)
    requires b < |chains|
    ensures Flatten(chains[..b + 1]) == Flatten(chains[..b]) + chains[b]
  {
    assert chains[..b + 1][..b] == chains[..b];
  }

  /** The traversal meets every entry exactly once. */
  lemma {:induction false} FlattenIsExact(s: Shape, bits: nat, b: nat)
    requires bits <= 64 && s.Consistent(bits) && b <= |s.chains|
    ensures Distinct(Flatten(s.chains[..b]))
    ensures forall e :: e in Flatten(s.chains[..b]) <==> e in s.names && Home(s.names[e], bits) < b
  {
    hide Home, Flatten;
    FlattenNone(s.chains);
    if b > 0 {
      FlattenIsExact(s, bits, b - 1);
      FlattenNext(s.chains, b - 1);
      forall e | e in s.names && Home(s.names[e], bits) == b - 1 ensures e in s.chains[b - 1] {
      }
    }
  }

  lemma AllBelow(s: Shape, bits: nat)
    requires bits <= 64 && s.Consistent(bits)
    ensures forall e :: e in s.names ==> Home(s.names[e], bits) < |s.chains|
  {
    hide Home;
  }

  /** Deleting the key of a bucket's first entry takes that entry and leaves the other buckets alone. */
  lemma HeadRemoved(s: Shape, h: nat, i: nat, bits: nat, bkt: nat)
    requires bits <= 64 && s.Consistent(bits) && bkt < |s.chains| && s.chains[bkt] != []
    requires InTable(s, h, i) && s.chains[h][i] == s.chains[bkt][0]
    ensures s.Remove(h, i).names.Keys <= s.names.Keys && |s.Remove(h, i).chains| == |s.chains|
    ensures s.Remove(h, i).chains == s.chains[bkt := s.chains[bkt][1..]]
  {
    hide Home;
    s.OnePlace(bits, bkt);
    assert h == bkt && i == 0;
    assert s.chains[bkt][..0] + s.chains[bkt][1..] == s.chains[bkt][1..];
  }

  // ---------------------------------------------------------------- growing, abstractly

  /** The entries before position `k` of bucket `bkt` have been relinked into `t`, and no others. */
  ghost predicate Progress(s: Shape, t: Shape, bkt: nat, k: nat) {
    && (forall e :: e in t.names ==> e in s.names && t.names[e] == s.names[e])
    && (forall b, j :: 0 <= b < |s.chains| && 0 <= j < |s.chains[b]| ==>
          (s.chains[b][j] in t.names <==> b < bkt || (b == bkt && j < k)))
  }

  /** The entries from position `k` of bucket `bkt` on are linked as before. */
  ghost predicate Untouched(s: Shape, bkt: nat, k: nat)
    requires Within(s.chains, s.names.Keys)
    reads s.names.Keys`next
  {
    forall b, j :: 0 <= b < |s.chains| && 0 <= j < |s.chains[b]| && !(b < bkt || (b == bkt && j < k)) ==>
      s.chains[b][j].next == At(s.chains[b], j + 1)
  }

  /** The state inside hashmap_grow. */
  ghost predicate Moving(s: Shape, t: Shape, heads: seq<Entry?>, newBits: nat, oldBits: nat, bkt: nat, k: nat)
    reads s.names.Keys`next, t.names.Keys`next
  {
    && newBits <= 64 && oldBits <= 64 && s.Consistent(oldBits) && t.Consistent(newBits)
    && |t.chains| == |heads| == Pow2(newBits)
    && Progress(s, t, bkt, k) && AllLinked(t.chains, heads, t.names.Keys) && Untouched(s, bkt, k)
  }

  /** The next entry has not been moved yet, and neither has its name. */
  lemma MoveIsNew(s: Shape, t: Shape, newBits: nat, oldBits: nat, bkt: nat, k: nat)
    requires newBits <= 64 && oldBits <= 64 && s.Consistent(oldBits) && t.Consistent(newBits) && Progress(s, t, bkt, k)
    requires bkt < |s.chains| && k < |s.chains[bkt]|
    ensures s.chains[bkt][k] in s.names && s.chains[bkt][k] !in t.names && s.names[s.chains[bkt][k]] !in t.entries
  {
    hide Home;
  }

  lemma MoveProgress(s: Shape, t: Shape, oldBits: nat, bkt: nat, k: nat, h: nat)
    requires oldBits <= 64 && s.Consistent(oldBits) && Progress(s, t, bkt, k)
    requires bkt < |s.chains| && k < |s.chains[bkt]| && h < |t.chains|
    ensures s.chains[bkt][k] in s.names
    ensures Progress(s, t.AddFirst(s.chains[bkt][k], s.names[s.chains[bkt][k]], h), bkt, k + 1)
  {
    hide Home;
    var e := s.chains[bkt][k];
    s.OnePlace(oldBits, bkt);
    forall b, j | 0 <= b < |s.chains| && 0 <= j < |s.chains[b]| ensures s.chains[b][j] == e <==> b == bkt && j == k {
      if b != bkt { assert s.chains[b][j] !in s.chains[bkt]; }
    }
  }

  twostate lemma UntouchedAfter(new s: Shape, new oldBits: nat, new bkt: nat, new k: nat)
    requires old(allocated(s))
    requires oldBits <= 64 && s.Consistent(oldBits) && bkt < |s.chains| && k < |s.chains[bkt]|
    requires old(Untouched(s, bkt, k)) && forall x :: x in s.names && x != s.chains[bkt][k] ==> x.next == old(x.next)
    ensures Untouched(s, bkt, k + 1)
  {
    hide Home;
    var e := s.chains[bkt][k];
    s.OnePlace(oldBits, bkt);
    forall b, j | 0 <= b < |s.chains| && 0 <= j < |s.chains[b]| && !(b < bkt || (b == bkt && j < k + 1))
      ensures s.chains[b][j].next == At(s.chains[b], j + 1)
    {
      if b != bkt { assert s.chains[b][j] !in s.chains[bkt]; }
    }
  }

  /** Doubling keeps the load below three quarters with one more entry. */
  lemma GrownCapacity(capacity: nat, bits: nat, size: nat)
    requires 4 * size / 3 <= capacity
    requires if capacity == 0 then bits == 0 else capacity == Pow2(bits) && bits >= HASHMAP_MIN_CAP_BITS
    ensures var newBits := if bits + 1 < HASHMAP_MIN_CAP_BITS then HASHMAP_MIN_CAP_BITS else bits + 1;
            Pow2(newBits) > 0 && (size + 1) * 4 / 3 <= Pow2(newBits) && 4 * size / 3 <= Pow2(newBits)
  {
    SmallPow2();
    if capacity > 0 {
      Pow2Split(2, bits - 2);
      assert capacity >= 4;
    }
  }

  lemma HeadsAre(chains: seq<seq<Entry>>, heads: seq<Entry?>, nodes: set<Entry>)
    requires |heads| == |chains| && Within(chains, nodes) && AllLinked(chains, heads, nodes)
    ensures forall b :: 0 <= b < |heads| ==> heads[b] == At(chains[b], 0)
  {
  }

  lemma MovingAt(s: Shape, t: Shape, heads: seq<Entry?>, newBits: nat, oldBits: nat, bkt: nat, k: nat)
    requires Moving(s, t, heads, newBits, oldBits, bkt, k) && bkt < |s.chains| && k < |s.chains[bkt]|
    ensures s.chains[bkt][k] in s.names && s.chains[bkt][k].next == At(s.chains[bkt], k + 1)
  {
    hide Home;
  }

  lemma BucketDone(s: Shape, t: Shape, heads: seq<Entry?>, newBits: nat, oldBits: nat, bkt: nat)
    requires bkt < |s.chains| && Moving(s, t, heads, newBits, oldBits, bkt, |s.chains[bkt]|)
    ensures Moving(s, t, heads, newBits, oldBits, bkt + 1, 0)
  {
    hide Home, AllLinked, Shape.Consistent, Pow2;
  }

  lemma MovingStarts(s: Shape, t: Shape, oldHeads: seq<Entry?>, heads: seq<Entry?>, newBits: nat, oldBits: nat)
    requires newBits <= 64 && oldBits <= 64 && s.Consistent(oldBits) && |oldHeads| == |s.chains|
    requires Within(s.chains, s.names.Keys) && AllLinked(s.chains, oldHeads, s.names.Keys)
    requires t.names == map[] && t.entries == map[] && |t.chains| == |heads| == Pow2(newBits)
    requires forall b :: 0 <= b < |heads| ==> heads[b] == null && t.chains[b] == []
    ensures Moving(s, t, heads, newBits, oldBits, 0, 0)
  {
    hide Home, Pow2;
    forall b, j | 0 <= b < |s.chains| && 0 <= j < |s.chains[b]| ensures s.chains[b][j].next == At(s.chains[b], j + 1) {
      assert Linked(s.chains[b], oldHeads[b]);
    }
  }

  /** When every bucket has been moved, the new shape has exactly the old entries. */
  lemma MovingEnds(s: Shape, t: Shape, heads: seq<Entry?>, newBits: nat, oldBits: nat)
    requires Moving(s, t, heads, newBits, oldBits, |s.chains|, 0)
    ensures t.names == s.names && t.entries == s.entries && t.Consistent(newBits)
    ensures |t.chains| == |heads| == Pow2(newBits) && Within(t.chains, t.names.Keys)
    ensures AllLinked(t.chains, heads, t.names.Keys)
  {
    hide Home, Pow2, AllLinked;
    forall e | e in s.names ensures e in t.names {
      var h := Home(s.names[e], oldBits);
      var j :| 0 <= j < |s.chains[h]| && s.chains[h][j] == e;
    }
    assert t.names.Keys == s.names.Keys;
    assert t.entries.Keys == s.entries.Keys;
  }

  /** Chains, the pointers to their first entries, and the entries. */
  datatype Links = Links(chains: seq<seq<Entry>>, heads: seq<Entry?>, nodes: set<Entry>)

  twostate lemma LinkFirst(new l: Links, new e: Entry, new h: nat)
    requires old(allocated(l))
    requires |l.heads| == |l.chains| && h < |l.chains| && Within(l.chains, l.nodes) && e !in l.nodes
    requires old(AllLinked(l.chains, l.heads, l.nodes))
    requires (forall x :: x in l.nodes ==> x.next == old(x.next)) && e.next == l.heads[h]
    ensures Within(l.chains[h := [e] + l.chains[h]], l.nodes + {e})
    ensures AllLinked(l.chains[h := [e] + l.chains[h]], l.heads[h := e], l.nodes + {e})
  {
    var chains, heads := l.chains, l.heads;
    var d, g := chains[h := [e] + chains[h]], heads[h := e];
    forall b | 0 <= b < |d| ensures Linked(d[b], g[b]) {
      assert old(Linked(chains[b], heads[b]));
      if b == h {
        forall i | 0 <= i < |d[h]| ensures d[h][i].next == At(d[h], i + 1) {
          if i > 0 { assert d[h][i] == chains[h][i - 1]; }
        }
      }
    }
  }

  /** An entry of a chain, its predecessor and its successor. */
  lemma ChainAt(chains: seq<seq<Entry>>, heads: seq<Entry?>, nodes: set<Entry>, h: nat, i: nat)
    requires |heads| == |chains| && h < |chains| && i < |chains[h]| && Within(chains, nodes) && Apart(chains, h)
    requires AllLinked(chains, heads, nodes)
    ensures chains[h][i].next == At(chains[h], i + 1) && chains[h][i] in nodes
    ensures i > 0 ==> chains[h][i - 1] != chains[h][i] && chains[h][i - 1] in nodes
  {
    assert Linked(chains[h], heads[h]);
  }

  /** Linking around entry `i` of bucket `h`. */
  twostate lemma UnlinkAt(new l: Links, new h: nat, new i: nat)
    requires old(allocated(l))
    requires |l.heads| == |l.chains| && h < |l.chains| && i < |l.chains[h]|
    requires Within(l.chains, l.nodes) && Apart(l.chains, h)
    requires old(AllLinked(l.chains, l.heads, l.nodes))
    requires forall x :: x in l.nodes && x != l.chains[h][i] && (i > 0 ==> x != l.chains[h][i - 1]) ==>
               x.next == old(x.next)
    requires i > 0 ==> l.chains[h][i - 1].next == At(l.chains[h], i + 1)
    ensures var d := l.chains[h := l.chains[h][..i] + l.chains[h][i + 1..]];
            Within(d, l.nodes - {l.chains[h][i]})
            && AllLinked(d, if i == 0 then l.heads[h := At(l.chains[h], 1)] else l.heads, l.nodes - {l.chains[h][i]})
  {
    var chains, heads := l.chains, l.heads;
    var chain := chains[h];
    var rest := chain[..i] + chain[i + 1..];
    var d, g := chains[h := rest], if i == 0 then heads[h := At(chain, 1)] else heads;
    forall j | 0 <= j < |rest| ensures rest[j] == chain[if j < i then j else j + 1] && rest[j] != chain[i] {
    }
    forall b | 0 <= b < |d| ensures Linked(d[b], g[b]) {
      assert old(Linked(chains[b], heads[b]));
      if b == h {
        forall j | 0 <= j < |rest| ensures rest[j].next == At(rest, j + 1) {
          assert j + 1 != i ==> rest[j].next == old(rest[j].next);
        }
      } else {
        assert forall j :: 0 <= j < |chains[b]| ==> chains[b][j] != chain[i];
      }
    }
  }
}
