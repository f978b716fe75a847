/** Database keys of snapshots and ordered iteration over them (snapshots/store.go). */
module SnapshotKeys {
  import opened Lex
  import opened Outcomes

  const MAX_HEIGHT: nat := 0xffff_ffff_ffff_ffff
  const MAX_FORMAT: nat := 0xffff_ffff
  const KEY_PREFIX: byte := 1

  function Pow256(w: nat): (p: int)
    ensures p >= 1
  {
    if w == 0 then 1 else 256 * Pow256(w - 1)
  }

  /** `binary.BigEndian`: `w` bytes, most significant first. */
  function BigEndian(n: nat, w: nat): (s: Bytes)
    ensures |s| == w
  {
    if w == 0 then [] else BigEndian(n / 256, w - 1) + [n % 256]
  }

  function FromBigEndian(s: Bytes): nat {
    if s == [] then 0 else 256 * FromBigEndian(s[..|s| - 1]) + s[|s| - 1]
  }

  lemma {:induction false} BigEndianRoundTrip(n: nat, w: nat)
    requires n < Pow256(w)
    ensures FromBigEndian(BigEndian(n, w)) == n
    decreases w
  {
    if w > 0 {
      BigEndianRoundTrip(n / 256, w - 1);
      var s := BigEndian(n, w);
      assert s[..|s| - 1] == BigEndian(n / 256, w - 1);
    }
  }

  lemma {:induction false} FromBigEndianRoundTrip(s: Bytes)
    ensures FromBigEndian(s) < Pow256(|s|)
    ensures BigEndian(FromBigEndian(s), |s|) == s
  {
    if s != [] {
      var t := s[..|s| - 1];
      FromBigEndianRoundTrip(t);
      assert FromBigEndian(s) / 256 == FromBigEndian(t);
      assert s == t + [s[|s| - 1]];
    }
  }

  lemma {:induction false} BigEndianOrder(n: nat, m: nat, w: nat)
    requires n < m < Pow256(w)
    ensures Less(BigEndian(n, w), BigEndian(m, w))
    decreases w
  {
    if n / 256 < m / 256 {
      BigEndianOrder(n / 256, m / 256, w - 1);
      LessByPrefix(BigEndian(n / 256, w - 1), BigEndian(m / 256, w - 1), [n % 256], [m % 256]);
    } else {
      LessAfterPrefix(BigEndian(n / 256, w - 1), [n % 256], [m % 256]);
    }
  }

  lemma Widths()
    ensures Pow256(8) == MAX_HEIGHT + 1 && Pow256(4) == MAX_FORMAT + 1
  {
    assert Pow256(1) == 256;
    assert Pow256(2) == 256 * 256;
    assert Pow256(4) == 256 * (256 * Pow256(2));
    assert Pow256(6) == 256 * (256 * Pow256(4));
    assert Pow256(8) == 256 * (256 * Pow256(6));
  }

  function EncodeKey(height: nat, format: nat): (k: Bytes)
    ensures |k| == 13
  {
    [KEY_PREFIX] + (BigEndian(height, 8) + BigEndian(format, 4))
  }

  function DecodeKey(k: Bytes): Option<(nat, nat)> {
    if |k| != 13 || k[0] != KEY_PREFIX then None
    else Some((FromBigEndian(k[1..9]), FromBigEndian(k[9..13])))
  }

  predicate InRange(height: nat, format: nat) {
    height <= MAX_HEIGHT && format <= MAX_FORMAT
  }

  /** `decodeKey` inverts `encodeKey`, which is therefore injective. */
  lemma KeyRoundTrip(height: nat, format: nat)
    requires InRange(height, format)
    ensures DecodeKey(EncodeKey(height, format)) == Some((height, format))
  {
    hide BigEndian, FromBigEndian, Pow256;
    Widths();
    var k := EncodeKey(height, format);
    assert k[1..9] == BigEndian(height, 8) && k[9..13] == BigEndian(format, 4);
    BigEndianRoundTrip(height, 8);
    BigEndianRoundTrip(format, 4);
  }

  /** Every key that decodes is the encoding of what it decodes to. */
  lemma DecodedKey(k: Bytes)
    requires DecodeKey(k).Some?
    ensures InRange(DecodeKey(k).value.0, DecodeKey(k).value.1)
    ensures EncodeKey(DecodeKey(k).value.0, DecodeKey(k).value.1) == k
  {
    hide BigEndian, FromBigEndian, Pow256;
    Widths();
    FromBigEndianRoundTrip(k[1..9]);
    FromBigEndianRoundTrip(k[9..13]);
    assert k == [k[0]] + (k[1..9] + k[9..13]);
  }

  predicate Before(h: nat, f: nat, h': nat, f': nat) {
    h < h' || (h == h' && f < f')
  }

  lemma KeyLess(h: nat, f: nat, h': nat, f': nat)
    requires InRange(h, f) && InRange(h', f') && Before(h, f, h', f')
    ensures Less(EncodeKey(h, f), EncodeKey(h', f'))
  {
    hide BigEndian, Less, Pow256;
    Widths();
    LessAfterPrefix([KEY_PREFIX], BigEndian(h, 8) + BigEndian(f, 4), BigEndian(h', 8) + BigEndian(f', 4));
    if h < h' {
      BigEndianOrder(h, h', 8);
      LessByPrefix(BigEndian(h, 8), BigEndian(h', 8), BigEndian(f, 4), BigEndian(f', 4));
    } else {
      BigEndianOrder(f, f', 4);
      LessAfterPrefix(BigEndian(h, 8), BigEndian(f, 4), BigEndian(f', 4));
    }
  }

  /** Keys sort by height, then by format. */
  lemma KeyOrder(h: nat, f: nat, h': nat, f': nat)
    requires InRange(h, f) && InRange(h', f')
    ensures Less(EncodeKey(h, f), EncodeKey(h', f')) <==> Before(h, f, h', f')
  {
    hide EncodeKey, Less;
    if Before(h, f, h', f') {
      KeyLess(h, f, h', f');
    } else if Before(h', f', h, f) {
      KeyLess(h', f', h, f);
      LessAsymmetric(EncodeKey(h', f'), EncodeKey(h, f));
    } else {
      LessIrreflexive(EncodeKey(h, f));
    }
  }

  // ---------------------------------------------------------------- iteration

  ghost predicate Descending(ks: seq<Bytes>) {
    forall i, j :: 0 <= i < j < |ks| ==> Less(ks[j], ks[i])
  }

  method Largest(s: set<Bytes>) returns (k: Bytes)
    requires s != {}
    ensures k in s && forall x :: x in s && x != k ==> Less(x, k)
  {
    k :| k in s;
    var rest := s - {k};
    while rest != {}
      invariant k in s && rest <= s
      invariant forall x :: x in s && x !in rest && x != k ==> Less(x, k)
      decreases rest
    {
      var x :| x in rest;
      Trichotomy(x, k);
      if Less(k, x) {
        forall y | y in s && y !in rest && y != k ensures Less(y, x) {
          LessTransitive(y, k, x);
        }
        k := x;
      }
      rest := rest - {x};
    }
  }

  /** `ReverseIterator(start, end)`: the keys from `start` up to but excluding `end`, last one first. */
  method ReverseIterate(keys: set<Bytes>, start: Bytes, end: Bytes) returns (ks: seq<Bytes>)
    ensures Descending(ks)
    ensures forall k :: k in ks <==> k in keys && !Less(k, start) && Less(k, end)
  {
    ks := [];
    var rest := set k | k in keys && !Less(k, start) && Less(k, end);
    while rest != {}
      invariant Descending(ks)
      invariant forall k :: k in ks || k in rest <==> k in keys && !Less(k, start) && Less(k, end)
      invariant forall i, x :: 0 <= i < |ks| && x in rest ==> Less(x, ks[i])
      decreases rest
    {
      var k := Largest(rest);
      ks := ks + [k];
      rest := rest - {k};
    }
  }
}
