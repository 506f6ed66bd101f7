/**
 * The order in which an ordered key-value store lists byte-string keys:
 * lexicographic, byte by byte, a proper prefix coming first.
 */
module ByteOrder {

  import opened Bytes

  /** a sorts strictly before b (bytes.Compare(a, b) < 0). */
  predicate Less(a: seq<uint8>, b: seq<uint8>)
  {
    if |a| == 0 then |b| > 0
    else if |b| == 0 then false
    else a[0] < b[0] || (a[0] == b[0] && Less(a[1..], b[1..]))
  }

  lemma {:induction false} LessIrreflexive(a: seq<uint8>)
    ensures !Less(a, a)
  {
    if |a| > 0 {
      LessIrreflexive(a[1..]);
    }
  }

  lemma {:induction false} LessAsymmetric(a: seq<uint8>, b: seq<uint8>)
    requires Less(a, b)
    ensures !Less(b, a)
  {
    if |a| > 0 && a[0] == b[0] {
      LessAsymmetric(a[1..], b[1..]);
    }
  }

  lemma {:induction false} LessTransitive(a: seq<uint8>, b: seq<uint8>, c: seq<uint8>)
    requires Less(a, b) && Less(b, c)
    ensures Less(a, c)
  {
    if |a| > 0 && a[0] == b[0] && b[0] == c[0] {
      LessTransitive(a[1..], b[1..], c[1..]);
    }
  }

  /** Any two distinct byte strings are ordered one way or the other. */
  lemma {:induction false} LessTotal(a: seq<uint8>, b: seq<uint8>)
    requires a != b
    ensures Less(a, b) || Less(b, a)
  {
    if |a| > 0 && |b| > 0 && a[0] == b[0] {
      assert a == [a[0]] + a[1..] && b == [b[0]] + b[1..];
      LessTotal(a[1..], b[1..]);
    }
  }

  /** A common prefix does not change the order. */
  lemma {:induction false} LessCommonPrefix(p: seq<uint8>, s: seq<uint8>, t: seq<uint8>)
    requires Less(s, t)
    ensures Less(p + s, p + t)
  {
    if |p| > 0 {
      assert (p + s)[1..] == p[1..] + s && (p + t)[1..] == p[1..] + t;
      LessCommonPrefix(p[1..], s, t);
    } else {
      assert p + s == s && p + t == t;
    }
  }

  /** Between strings of equal length the order is decided before either ends,
      so whatever follows them does not change it. */
  lemma {:induction false} LessSameLengthPrefix(p: seq<uint8>, q: seq<uint8>, s: seq<uint8>, t: seq<uint8>)
    requires |p| == |q| && Less(p, q)
    ensures Less(p + s, q + t)
  {
    if p[0] == q[0] {
      assert (p + s)[1..] == p[1..] + s && (q + t)[1..] == q[1..] + t;
      LessSameLengthPrefix(p[1..], q[1..], s, t);
    }
  }

  /** k is the key a smallest-first listing of `keys` returns first. */
  ghost predicate IsLeast(k: seq<uint8>, keys: set<seq<uint8>>)
  {
    k in keys && forall k' :: k' in keys && k' != k ==> Less(k, k')
  }

  lemma {:induction false} LeastExists(keys: set<seq<uint8>>)
    requires keys != {}
    ensures exists k :: IsLeast(k, keys)
    decreases keys
  {
    var x :| x in keys;
    if keys == {x} {
      assert IsLeast(x, keys);
    } else {
      var rest := keys - {x};
      LeastExists(rest);
      var m :| IsLeast(m, rest);
      if Less(x, m) {
        forall k | k in keys && k != x
          ensures Less(x, k)
        {
          if k != m {
            LessTransitive(x, m, k);
          }
        }
        assert IsLeast(x, keys);
      } else {
        LessTotal(x, m);
        assert IsLeast(m, keys);
      }
    }
  }

  lemma LeastUnique(a: seq<uint8>, b: seq<uint8>, keys: set<seq<uint8>>)
    requires IsLeast(a, keys) && IsLeast(b, keys)
    ensures a == b
  {
    if a != b {
      LessAsymmetric(a, b);
    }
  }

  /** The smallest key of a non-empty key set. */
  ghost function Smallest(keys: set<seq<uint8>>): (k: seq<uint8>)
    requires keys != {}
    ensures IsLeast(k, keys)
  {
    LeastExists(keys);
    var k :| IsLeast(k, keys); k
  }

  /** The big-endian layout turns numeric order into key order. */
  lemma {:induction false} BigEndianOrder(a: nat, b: nat, width: nat)
    requires a < b < Pow256(width)
    ensures Less(BigEndian(a, width), BigEndian(b, width))
  {
    var qa, qb := a / 256, b / 256;
    if qa < qb {
      BigEndianOrder(qa, qb, width - 1);
      LessSameLengthPrefix(BigEndian(qa, width - 1), BigEndian(qb, width - 1), [a % 256], [b % 256]);
    } else {
      assert [a % 256][1..] == [] == [b % 256][1..];
      LessCommonPrefix(BigEndian(qa, width - 1), [a % 256], [b % 256]);
    }
  }

}
