/** The byte layout that Parcel.c writes: little-endian words, padding to four bytes, strings with a length and a
    terminator, and 24-byte object records. */
module ParcelCodec {
  import opened Sums

  const INT32_MAX: nat := 0x7fff_ffff
  const OBJECT_SIZE: nat := 24  // sizeof(struct flat_binder_object)
  const POINTER_SIZE: nat := 8  // sizeof(binder_uintptr_t) and of any pointer
  const BINDER_TYPE_BINDER: nat := 0x7362_2a85
  const BINDER_TYPE_HANDLE: nat := 0x7368_2a85
  const BINDER_TYPE_FD: nat := 0x6664_2a85

  type Int32 = v: int | -0x8000_0000 <= v < 0x8000_0000

  // ---------------------------------------------------------------- words

  function Pow256(n: nat): (r: nat)
    ensures r > 0
  {
    if n == 0 then 1 else 256 * Pow256(n - 1)
  }

  /** The low `n` bytes of `v`, least significant first. */
  function Word(v: nat, n: nat): (bs: seq<Byte>)
    ensures |bs| == n
  {
    if n == 0 then [] else [v % 256] + Word(v / 256, n - 1)
  }

  function Value(bs: seq<Byte>): nat {
    if bs == [] then 0 else bs[0] + 256 * Value(bs[1..])
  }

  lemma {:induction false} WordRoundTrip(v: nat, n: nat)
    requires v < Pow256(n)
    ensures Value(Word(v, n)) == v
  {
    if n > 0 {
      WordRoundTrip(v / 256, n - 1);
      assert Word(v, n)[1..] == Word(v / 256, n - 1);
    }
  }

  lemma {:induction false} ValueBound(bs: seq<Byte>)
    ensures Value(bs) < Pow256(|bs|)
  {
    if bs != [] { ValueBound(bs[1..]); }
  }

  /** A word's value is `v` only if its bytes are those of `v`. */
  lemma {:induction false} ValueDecides(bs: seq<Byte>, v: nat)
    ensures Value(bs) == v ==> bs == Word(v, |bs|)
  {
    if bs != [] && Value(bs) == v {
      ValueDecides(bs[1..], v / 256);
      assert v % 256 == bs[0] && v / 256 == Value(bs[1..]);
    }
  }

  function Unsigned(v: Int32): nat { if v < 0 then v + 0x1_0000_0000 else v }

  function Signed(w: nat): Int32
    requires w < 0x1_0000_0000
  {
    if w >= 0x8000_0000 then w - 0x1_0000_0000 else w
  }

  function Int32Bytes(v: Int32): (bs: seq<Byte>)
    ensures |bs| == 4
  {
    Word(Unsigned(v), 4)
  }

  lemma Pow256Values()
    ensures Pow256(4) == 0x1_0000_0000 && Pow256(8) == 0x1_0000_0000_0000_0000
  {
    assert Pow256(2) == 65536;
    assert Pow256(4) == 65536 * Pow256(2);
    assert Pow256(8) == 0x1_0000_0000 * Pow256(4);
  }

  function Int32Of(bs: seq<Byte>): Int32
    requires |bs| == 4
  {
    ValueBound(bs);
    Pow256Values();
    Signed(Value(bs))
  }

  lemma Int32RoundTrip(v: Int32)
    ensures Int32Of(Int32Bytes(v)) == v
  {
    Pow256Values();
    WordRoundTrip(Unsigned(v), 4);
  }

  // ---------------------------------------------------------------- padding

  /** pad_size. */
  function PadSize(n: nat): (r: nat)
    ensures n <= r < n + 4 && r % 4 == 0
  {
    (n + 3) / 4 * 4
  }

  function Zeros(n: nat): seq<Byte> { seq(n, _ => 0) }

  function Padded(bs: seq<Byte>): (r: seq<Byte>)
    ensures |r| == PadSize(|bs|)
  {
    bs + Zeros(PadSize(|bs|) - |bs|)
  }

  /** The masks of pad_size and writeInplace, on machine words: clearing the two low bits after adding three
      rounds up to a multiple of four, and mask k keeps the 4 - k low bytes of a little-endian word. */
  lemma MasksAreArithmetic(s: bv64, w: bv32)
    requires s <= 0xffff_ffff
    ensures (s + 3) & !3 == (s + 3) / 4 * 4
    ensures w & 0x00ff_ffff == w % 0x100_0000 && w & 0x0000_ffff == w % 0x1_0000 && w & 0x0000_00ff == w % 0x100
  {
  }

  /** The last word of a padded write, after mask number `pad`: its low bytes stay, the pad bytes become zero. */
  function MaskWord(bs: seq<Byte>, pad: nat): (r: seq<Byte>)
    requires |bs| == 4 && pad < 4
    ensures |r| == 4
  {
    Word(Value(bs) % Pow256(4 - pad), 4)
  }

  lemma {:induction false} MaskKeepsExactly(bs: seq<Byte>, pad: nat)
    requires |bs| == 4 && pad < 4
    ensures MaskWord(bs, pad) == bs[..4 - pad] + Zeros(pad)
  {
    LowBytes(bs, 4 - pad, 4);
  }

  /** Taking a word modulo 256^k keeps its k low bytes and clears the others. */
  lemma {:induction false} LowBytes(bs: seq<Byte>, k: nat, n: nat)
    requires k <= |bs| == n
    ensures Word(Value(bs) % Pow256(k), n) == bs[..k] + Zeros(n - k)
  {
    if n == 0 {
    } else if k == 0 {
      assert Value(bs) % 1 == 0;
      ZeroWord(n);
    } else {
      var rest := Value(bs[1..]);
      ModStep(bs[0], rest, Pow256(k - 1));
      LowBytes(bs[1..], k - 1, n - 1);
      assert bs[..k] + Zeros(n - k) == [bs[0]] + (bs[1..][..k - 1] + Zeros(n - k));
    }
  }

  lemma {:induction false} ZeroWord(n: nat)
    ensures Word(0, n) == Zeros(n)
  {
    if n > 0 {
      ZeroWord(n - 1);
      assert Zeros(n) == [0] + Zeros(n - 1);
    }
  }

  lemma ModStep(b: Byte, rest: nat, m: nat)
    requires m > 0
    ensures (b + 256 * rest) % (256 * m) == b + 256 * (rest % m)
    ensures ((b + 256 * rest) % (256 * m)) % 256 == b && ((b + 256 * rest) % (256 * m)) / 256 == rest % m
  {
    var q, r := rest / m, rest % m;
    assert b + 256 * rest == (256 * m) * q + (b + 256 * r) by {
      assert rest == m * q + r;
    }
    assert r <= m - 1;
    DivModUnique(b + 256 * rest, 256 * m, q, b + 256 * r);
    DivModUnique(b + 256 * r, 256, r, b);
  }

  lemma DivModUnique(x: nat, d: nat, q: nat, r: nat)
    requires d > 0 && x == d * q + r && r < d
    ensures x % d == r && x / d == q
  {
    var q' := x / d;
    assert q' < q ==> d * (q' + 1) <= d * q;
    assert q' > q ==> d * (q + 1) <= d * q';
  }

  // ---------------------------------------------------------------- object records

  datatype Object = Object(ty: nat, flags: nat, binder: nat, cookie: nat) {
    predicate Fits() {
      && ty < 0x1_0000_0000 && flags < 0x1_0000_0000
      && binder < 0x1_0000_0000_0000_0000 && cookie < 0x1_0000_0000_0000_0000
    }

    /** An entry that acquire_object and release_object count. */
    predicate IsLocalBinder() { ty == BINDER_TYPE_BINDER && binder != 0 }

    /** The strong references on the local binder at `local` that this object stands for. */
    function Refs(local: nat): nat { if IsLocalBinder() && cookie == local then 1 else 0 }
  }

  function ObjectBytes(o: Object): (bs: seq<Byte>)
    ensures |bs| == OBJECT_SIZE
  {
    Word(o.ty, 4) + Word(o.flags, 4) + Word(o.binder, 8) + Word(o.cookie, 8)
  }

  function ObjectOf(bs: seq<Byte>): (o: Object)
    requires |bs| == OBJECT_SIZE
  {
    Object(Value(bs[..4]), Value(bs[4..8]), Value(bs[8..16]), Value(bs[16..]))
  }

  lemma ObjectRoundTrip(o: Object)
    requires o.Fits()
    ensures ObjectOf(ObjectBytes(o)) == o
  {
    Pow256Values();
    WordRoundTrip(o.ty, 4);
    WordRoundTrip(o.flags, 4);
    WordRoundTrip(o.binder, 8);
    WordRoundTrip(o.cookie, 8);
    var bs := ObjectBytes(o);
    assert bs[..4] == Word(o.ty, 4) && bs[4..8] == Word(o.flags, 4);
    assert bs[8..16] == Word(o.binder, 8) && bs[16..] == Word(o.cookie, 8);
  }
}
