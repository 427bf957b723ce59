/** Byte vectors and the order that `std::vector<uint8_t>::operator<` puts on them:
    lexicographic comparison of unsigned bytes, where a strict prefix orders first. */
module ByteOrder {

  /** One unsigned byte (`uint8_t`); `<` on `bv8` is unsigned. */
  type Byte = bv8

  /** A key or a value of the index (`byteVector`). */
  type Bytes = seq<Byte>

  /** Lexicographic "less than" over unsigned bytes. A vector is never less
      than an equal one. */
  predicate Less(a: Bytes, b: Bytes): (r: bool)
    ensures r ==> a != b
  {
    if |a| == 0 then |b| != 0
    else if |b| == 0 then false
    else a[0] < b[0] || (a[0] == b[0] && Less(a[1..], b[1..]))
  }

  /** No byte vector is less than itself. */
  lemma {:induction false} LessIrreflexive(a: Bytes)
    ensures !Less(a, a)
  {
    if |a| != 0 {
      LessIrreflexive(a[1..]);
    }
  }

  /** `Less` never holds in both directions. */
  lemma {:induction false} LessAsymmetric(a: Bytes, b: Bytes)
    requires Less(a, b)
    ensures !Less(b, a)
  {
    if |a| != 0 && |b| != 0 && a[0] == b[0] {
      LessAsymmetric(a[1..], b[1..]);
    }
  }

  lemma {:induction false} LessTransitive(a: Bytes, b: Bytes, c: Bytes)
    requires Less(a, b) && Less(b, c)
    ensures Less(a, c)
  {
    if |a| != 0 && |b| != 0 && |c| != 0 && a[0] == b[0] && b[0] == c[0] {
      LessTransitive(a[1..], b[1..], c[1..]);
    }
  }

  /** Any two different byte vectors are ordered one way or the other, so the
      descent's three-way choice (equal, left, right) covers every key. */
  lemma {:induction false} LessTotal(a: Bytes, b: Bytes)
    requires a != b
    ensures Less(a, b) || Less(b, a)
  {
    if |a| != 0 && |b| != 0 && a[0] == b[0] {
      assert a == [a[0]] + a[1..] && b == [b[0]] + b[1..];
      LessTotal(a[1..], b[1..]);
    }
  }

  /** A strict prefix orders before the longer vector. */
  lemma {:induction false} PrefixLess(a: Bytes, b: Bytes)
    requires |a| < |b| && a == b[..|a|]
    ensures Less(a, b)
  {
    if |a| != 0 {
      assert a[1..] == b[1..][..|a| - 1];
      PrefixLess(a[1..], b[1..]);
    }
  }
}
