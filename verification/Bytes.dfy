/** Byte strings, fixed-width integers and the byte order that sorts keys. */
module Bytes {
  import opened Wrappers

  type Byte = x: int | 0 <= x < 0x100
  type Bytes = seq<Byte>

  /** The bytes of an ASCII literal. */
  function Ascii(s: string): Bytes {
    seq(|s|, i requires 0 <= i < |s| => (s[i] as int) % 0x100)
  }

  /** `strip_prefix`. */
  function StripPrefix(s: Bytes, p: Bytes): Option<Bytes> {
    if |p| <= |s| && s[..|p|] == p then Some(s[|p|..]) else None
  }

  /** `to_le_bytes` of the low `width` bytes of `n`. */
  function LittleEndian(n: nat, width: nat): (r: Bytes)
    ensures |r| == width
  {
    if width == 0 then [] else [n % 0x100] + LittleEndian(n / 0x100, width - 1)
  }

  /** `to_be_bytes` of the low `width` bytes of `n`. */
  function BigEndian(n: nat, width: nat): (r: Bytes)
    ensures |r| == width
  {
    if width == 0 then [] else BigEndian(n / 0x100, width - 1) + [n % 0x100]
  }

  function FromBigEndian(bs: Bytes): nat {
    if bs == [] then 0 else FromBigEndian(bs[..|bs| - 1]) * 0x100 + bs[|bs| - 1]
  }

  function Power256(n: nat): nat {
    if n == 0 then 1 else 0x100 * Power256(n - 1)
  }

  lemma {:induction false} LittleEndianInjective(n: nat, m: nat, width: nat)
    requires n < Power256(width) && m < Power256(width)
    requires LittleEndian(n, width) == LittleEndian(m, width)
    ensures n == m
  {
    if width > 0 {
      var a, b := LittleEndian(n, width), LittleEndian(m, width);
      assert a[0] == b[0] && a[1..] == b[1..];
      assert a[1..] == LittleEndian(n / 0x100, width - 1) && b[1..] == LittleEndian(m / 0x100, width - 1);
      LittleEndianInjective(n / 0x100, m / 0x100, width - 1);
    }
  }

  /** Decoding gives the number back modulo the width. */
  lemma {:induction false} BigEndianRoundTrip(n: nat, width: nat)
    ensures n < Power256(width) ==> FromBigEndian(BigEndian(n, width)) == n
  {
    if width > 0 {
      BigEndianRoundTrip(n / 0x100, width - 1);
      var b := BigEndian(n, width);
      assert b[..|b| - 1] == BigEndian(n / 0x100, width - 1);
    }
  }

  lemma {:induction false} FromBigEndianRoundTrip(bs: Bytes)
    ensures FromBigEndian(bs) < Power256(|bs|) && BigEndian(FromBigEndian(bs), |bs|) == bs
  {
    if bs != [] {
      FromBigEndianRoundTrip(bs[..|bs| - 1]);
    }
  }

  /** The low byte comes first. */
  lemma {:induction false} LittleEndianAt(n: nat, width: nat, i: nat)
    requires i < width
    ensures Power256(i) > 0 && LittleEndian(n, width)[i] == n / Power256(i) % 0x100
  {
    if i > 0 {
      LittleEndianAt(n / 0x100, width - 1, i - 1);
      DivideTwice(n, Power256(i - 1));
    }
  }

  /** The low byte comes last. */
  lemma {:induction false} BigEndianAt(n: nat, width: nat, i: nat)
    requires i < width
    ensures Power256(i) > 0 && BigEndian(n, width)[width - 1 - i] == n / Power256(i) % 0x100
  {
    if i > 0 {
      BigEndianAt(n / 0x100, width - 1, i - 1);
      DivideTwice(n, Power256(i - 1));
    }
  }

  lemma DivideTwice(n: nat, d: nat)
    requires d > 0
    ensures n / 0x100 / d == n / (0x100 * d)
  {
    var q, r := n / 0x100, n % 0x100;
    var k, m := q / d, q % d;
    assert n == (0x100 * d) * k + (0x100 * m + r);
    assert 0 <= 0x100 * m + r < 0x100 * d;
    Quotient(n, 0x100 * d, k, 0x100 * m + r);
  }

  lemma Quotient(n: nat, d: nat, k: nat, r: nat)
    requires d > 0 && n == d * k + r && r < d
    ensures n / d == k
  {
    var x := n / d - k;
    assert d * x == d * (n / d) - d * k == r - n % d;
    Scaled(d, x);
  }

  lemma Scaled(d: nat, x: int)
    ensures (x >= 1 ==> d * x >= d) && (x <= -1 ==> d * x + d <= 0)
  {
    assert x >= 1 ==> d * (x - 1) >= 0;
    assert x <= -1 ==> d * (-x - 1) >= 0;
  }

  lemma StripPrefixIff(s: Bytes, p: Bytes, t: Bytes)
    ensures StripPrefix(s, p) == Some(t) <==> s == p + t
  {
    if s == p + t {
      assert s[..|p|] == p && s[|p|..] == t;
    }
  }

  /** A length-prefixed byte string, as every variable part is hashed. */
  function Prefixed(bs: Bytes): (r: Bytes)
    ensures |r| == 8 + |bs|
  {
    LittleEndian(|bs|, 8) + bs
  }

  const MAX_LENGTH := 0x1_0000_0000_0000_0000

  lemma PrefixedCancel(a: Bytes, b: Bytes, r: Bytes, q: Bytes)
    requires |a| < MAX_LENGTH && |b| < MAX_LENGTH
    requires Prefixed(a) + r == Prefixed(b) + q
    ensures a == b && r == q
  {
    LengthCancel(|a|, |b|, a + r, b + q) by {
      assert Prefixed(a) + r == LittleEndian(|a|, 8) + (a + r);
      assert Prefixed(b) + q == LittleEndian(|b|, 8) + (b + q);
    }
    Cancel(a, b, r, q);
  }

  lemma LengthCancel(n: nat, m: nat, r: Bytes, q: Bytes)
    requires n < MAX_LENGTH && m < MAX_LENGTH
    requires LittleEndian(n, 8) + r == LittleEndian(m, 8) + q
    ensures n == m && r == q
  {
    Cancel(LittleEndian(n, 8), LittleEndian(m, 8), r, q);
    assert Power256(8) == MAX_LENGTH;
    LittleEndianInjective(n, m, 8);
  }

  lemma Cancel(a: Bytes, b: Bytes, r: Bytes, q: Bytes)
    requires |a| == |b| && a + r == b + q
    ensures a == b && r == q
  {
    assert a == (a + r)[..|a|] && b == (b + q)[..|b|];
    assert r == (a + r)[|a|..] && q == (b + q)[|b|..];
  }

  lemma Assoc(a: Bytes, b: Bytes, c: Bytes)
    ensures a + (b + c) == (a + b) + c
  {
  }

  lemma Regroup(a: Bytes, b: Bytes, c: Bytes, d: Bytes, r: Bytes)
    ensures a + b + c + d + r == a + (b + (c + (d + r)))
  {
  }

  // ---- lexicographic order and sorted key lists -----------------------------

  predicate Less(a: Bytes, b: Bytes) {
    b != [] && (a == [] || a[0] < b[0] || (a[0] == b[0] && Less(a[1..], b[1..])))
  }

  /** A proper prefix, or a smaller byte where the two first differ. */
  lemma {:induction false} LessIff(a: Bytes, b: Bytes)
    ensures Less(a, b) <==>
            (|a| < |b| && b[..|a|] == a) || exists k :: Differ(a, b, k)
  {
    if a == [] {
      assert b[..0] == a;
    } else if b != [] {
      LessIff(a[1..], b[1..]);
      assert a == [a[0]] + a[1..] && b == [b[0]] + b[1..];
      if a[0] == b[0] {
        LessShift(a, b);
      } else if a[0] < b[0] {
        assert Differ(a, b, 0);
      } else {
        forall k | 0 < k <= |a| && k <= |b| ensures a[..k] != b[..k] {
          assert a[..k][0] != b[..k][0];
        }
        assert a[..|a|] == a;
      }
    }
  }

  ghost predicate Differ(a: Bytes, b: Bytes, k: int) {
    0 <= k < |a| && k < |b| && a[..k] == b[..k] && a[k] < b[k]
  }

  lemma LessShift(a: Bytes, b: Bytes)
    requires a != [] && b != [] && a[0] == b[0]
    ensures (|a| < |b| && b[..|a|] == a) <==> (|a[1..]| < |b[1..]| && b[1..][..|a[1..]|] == a[1..])
    ensures (exists k :: Differ(a, b, k)) <==> (exists k :: Differ(a[1..], b[1..], k))
  {
    PrefixShift(a, b);
    hide Differ;
    forall k | Differ(a, b, k) ensures Differ(a[1..], b[1..], k - 1) {
      DifferShift(a, b, k);
    }
    forall k | Differ(a[1..], b[1..], k) ensures Differ(a, b, k + 1) {
      DifferShift(a, b, k + 1);
    }
  }

  lemma PrefixShift(a: Bytes, b: Bytes)
    requires a != [] && b != [] && a[0] == b[0]
    ensures (|a| < |b| && b[..|a|] == a) <==> (|a[1..]| < |b[1..]| && b[1..][..|a[1..]|] == a[1..])
  {
    var x, y := a[1..], b[1..];
    if |a| < |b| {
      assert b[..|a|] == [b[0]] + y[..|x|] && a == [a[0]] + x;
      assert b[..|a|] == a ==> b[..|a|][1..] == a[1..];
    }
  }

  lemma DifferShift(a: Bytes, b: Bytes, k: int)
    requires a != [] && b != [] && a[0] == b[0]
    ensures Differ(a, b, k) <==> Differ(a[1..], b[1..], k - 1)
  {
    var x, y := a[1..], b[1..];
    if 0 < k < |a| && k < |b| {
      assert a[..k] == [a[0]] + x[..k - 1] && b[..k] == [b[0]] + y[..k - 1];
      assert x[..k - 1] == a[..k][1..] && y[..k - 1] == b[..k][1..];
    }
  }

  lemma {:induction false} LessTotal(a: Bytes, b: Bytes)
    ensures a == b || Less(a, b) || Less(b, a)
    ensures !(Less(a, b) && Less(b, a)) && (a == b ==> !Less(a, b))
  {
    if a != [] && b != [] {
      LessTotal(a[1..], b[1..]);
      assert a == [a[0]] + a[1..] && b == [b[0]] + b[1..];
    }
  }

  lemma {:induction false} LessTransitive(a: Bytes, b: Bytes, c: Bytes)
    requires Less(a, b) && Less(b, c)
    ensures Less(a, c)
  {
    if a != [] && a[0] == b[0] && b[0] == c[0] {
      LessTransitive(a[1..], b[1..], c[1..]);
    }
  }

  ghost predicate Sorted(ks: seq<Bytes>) {
    forall i, j :: 0 <= i < j < |ks| ==> Less(ks[i], ks[j])
  }

  ghost function Elements(ks: seq<Bytes>): set<Bytes> {
    set k | k in ks
  }

  function Insert(ks: seq<Bytes>, k: Bytes): (r: seq<Bytes>)
    ensures |r| == |ks| + 1
    ensures forall x :: x in r <==> x in ks || x == k
  {
    if ks == [] || Less(k, ks[0]) then [k] + ks else [ks[0]] + Insert(ks[1..], k)
  }

  lemma {:induction false} InsertSorted(ks: seq<Bytes>, k: Bytes)
    requires Sorted(ks) && k !in ks
    ensures Sorted(Insert(ks, k))
  {
    if ks != [] {
      LessTotal(k, ks[0]);
      if Less(k, ks[0]) {
        forall i | 0 < i < |ks| ensures Less(k, ks[i]) {
          LessTransitive(k, ks[0], ks[i]);
        }
      } else {
        InsertSorted(ks[1..], k);
        var r := Insert(ks[1..], k);
        forall i | 0 <= i < |r| ensures Less(ks[0], r[i]) {
          assert r[i] in ks[1..] || r[i] == k;
        }
      }
    }
  }

  /** The keys of a set in sorted order, whatever order they are taken in. */
  ghost function SortedKeys(keys: set<Bytes>): (r: seq<Bytes>)
    ensures Sorted(r) && Elements(r) == keys && |r| == |keys|
  {
    if keys == {} then []
    else
      var k :| k in keys;
      var rest := SortedKeys(keys - {k});
      assert k !in rest by { assert k !in Elements(rest); }
      InsertSorted(rest, k);
      assert Elements(rest) + {k} == keys;
      Insert(rest, k)
  }

  /** Sorting forgets the order the keys came in. */
  lemma {:induction false} SortedUnique(ks: seq<Bytes>, ls: seq<Bytes>)
    requires Sorted(ks) && Sorted(ls) && Elements(ks) == Elements(ls)
    ensures ks == ls
  {
    if ks == [] {
      assert forall x :: x in ls ==> x in Elements(ls);
    } else {
      assert ks[0] in Elements(ls);
      var i :| 0 <= i < |ls| && ls[i] == ks[0];
      assert ls[0] in Elements(ks);
      var j :| 0 <= j < |ks| && ks[j] == ls[0];
      LessTotal(ks[0], ls[0]);
      assert ks[0] == ls[0];
      forall x ensures x in ks[1..] <==> x in ls[1..] {
        assert x in ks <==> x in Elements(ks);
        assert x in ls <==> x in Elements(ls);
        LessTotal(ks[0], ks[0]);
      }
      SortedUnique(ks[1..], ls[1..]);
      assert ks == [ks[0]] + ks[1..] && ls == [ls[0]] + ls[1..];
    }
  }

  /** The map's keys in whatever order it yields them, sorted. */
  method SortKeys<V>(m: map<Bytes, V>) returns (keys: seq<Bytes>)
    ensures keys == SortedKeys(m.Keys)
  {
    keys := [];
    var pending := m.Keys;
    while pending != {}
      invariant pending <= m.Keys && Sorted(keys) && Elements(keys) == m.Keys - pending
      decreases pending
    {
      var k :| k in pending;
      assert k !in keys by { assert k !in Elements(keys); }
      InsertSorted(keys, k);
      assert Elements(Insert(keys, k)) == Elements(keys) + {k};
      keys := Insert(keys, k);
      pending := pending - {k};
    }
    SortedUnique(keys, SortedKeys(m.Keys));
  }

  /** A SHA-256 hasher, as the bytes fed to it so far. */
  class Hasher {
    var fed: Bytes

    constructor ()
      ensures fed == []
    {
      fed := [];
    }

    method Update(bytes: Bytes)
      modifies this
      ensures fed == old(fed) + bytes
    {
      fed := fed + bytes;
    }
  }
}
