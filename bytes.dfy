/**
 * Byte arrays as HBase sees them: the unsigned lexicographic order of
 * `Bytes.BYTES_COMPARATOR`, `Bytes.toBytes(int)`, and the ascending key
 * orders that a `TreeMap` iterates in.
 */
module Bytes {

  newtype byte = x: int | 0 <= x < 256

  type Bytes = seq<byte>

  /**
   * A Java `String`, held as its UTF-8 encoding. `Bytes.toBytes(String)` and
   * `getBytes(UTF_8)` are the identity on this representation, `isEmpty` is
   * `== []` and concatenation of strings is concatenation of their bytes.
   */
  type JString = seq<byte>

  /** `Byte.MAX_VALUE`, the byte that closes the range scanned for a dynamic column. */
  const BYTE_TERMINAL_VALUE: byte := 0x7F

  /**
   * `a < b` in `Bytes.BYTES_COMPARATOR`: lexicographic, each byte compared
   * as an unsigned number, a proper prefix before its extensions.
   */
  predicate Less(a: Bytes, b: Bytes)
    decreases |a|
  {
    if |a| == 0 then |b| > 0
    else if |b| == 0 then false
    else if a[0] != b[0] then a[0] < b[0]
    else Less(a[1..], b[1..])
  }

  lemma LessIrreflexive(a: Bytes)
    ensures !Less(a, a)
    decreases |a|
  {
    if |a| > 0 {
      LessIrreflexive(a[1..]);
    }
  }

  lemma LessAsymmetric(a: Bytes, b: Bytes)
    ensures Less(a, b) ==> !Less(b, a)
    decreases |a|
  {
    if |a| > 0 && |b| > 0 && a[0] == b[0] {
      LessAsymmetric(a[1..], b[1..]);
    }
  }

  lemma LessTransitive(a: Bytes, b: Bytes, c: Bytes)
    requires Less(a, b) && Less(b, c)
    ensures Less(a, c)
    decreases |a|
  {
    if |a| > 0 && a[0] == b[0] && b[0] == c[0] {
      LessTransitive(a[1..], b[1..], c[1..]);
    }
  }

  lemma LessTotal(a: Bytes, b: Bytes)
    ensures a == b || Less(a, b) || Less(b, a)
    decreases |a|
  {
    if |a| > 0 && |b| > 0 && a[0] == b[0] {
      LessTotal(a[1..], b[1..]);
      assert a == [a[0]] + a[1..] && b == [b[0]] + b[1..];
    }
  }

  /** Two byte arrays that are both least in a set are the same array. */
  predicate IsLeast(k: Bytes, s: set<Bytes>)
  {
    k in s && forall j :: j in s ==> !Less(j, k)
  }

  lemma LeastExists(s: set<Bytes>)
    requires s != {}
    ensures exists k :: IsLeast(k, s)
  {
    var x :| x in s;
    LessIrreflexive(x);
    if s == {x} {
      assert IsLeast(x, s);
    } else {
      LeastExists(s - {x});
      var k :| IsLeast(k, s - {x});
      if Less(x, k) {
        forall j | j in s
          ensures !Less(j, x)
        {
          if j != x && Less(j, x) {
            LessTransitive(j, x, k);
          }
        }
        assert IsLeast(x, s);
      } else {
        assert IsLeast(k, s);
      }
    }
  }

  lemma LeastUnique(s: set<Bytes>)
    ensures forall a, b :: IsLeast(a, s) && IsLeast(b, s) ==> a == b
  {
    forall a, b | IsLeast(a, s) && IsLeast(b, s)
      ensures a == b
    {
      LessTotal(a, b);
    }
  }

  /**
   * The keys of a `TreeMap<byte[], _>` built with `Bytes.BYTES_COMPARATOR`,
   * in the order its iterators visit them.
   */
  function SortedKeys(s: set<Bytes>): (r: seq<Bytes>)
    ensures |r| == |s|
    ensures forall k :: k in r <==> k in s
    decreases |s|
  {
    if s == {} then []
    else
      LeastExists(s);
      LeastUnique(s);
      var k :| IsLeast(k, s);
      [k] + SortedKeys(s - {k})
  }

  /** Strictly ascending in the order of `Bytes.BYTES_COMPARATOR`. */
  ghost predicate Ascending(r: seq<Bytes>)
  {
    forall i, j :: 0 <= i < j < |r| ==> Less(r[i], r[j])
  }

  /** A `TreeMap`'s iterators visit its keys in strictly ascending order. */
  lemma {:induction false} SortedKeysAscending(s: set<Bytes>)
    ensures Ascending(SortedKeys(s))
    decreases |s|
  {
    if s != {} {
      LeastExists(s);
      LeastUnique(s);
      var k :| IsLeast(k, s);
      var rest := SortedKeys(s - {k});
      SortedKeysAscending(s - {k});
      forall j | j in rest
        ensures Less(k, j)
      {
        LessTotal(k, j);
      }
      assert SortedKeys(s) == [k] + rest;
    }
  }

  /** A strictly ascending sequence is determined by its elements. */
  lemma {:induction false} SortedSame(a: seq<Bytes>, b: seq<Bytes>)
    requires Ascending(a) && Ascending(b)
    requires forall k :: k in a <==> k in b
    ensures a == b
    decreases |a|
  {
    assert |a| > 0 ==> a[0] in b;
    assert |b| > 0 ==> b[0] in a;
    if |a| > 0 && |b| > 0 {
      if a[0] != b[0] {
        assert a[0] in b;
        assert b[0] in a;
        var i :| 0 <= i < |a| && a[i] == b[0];
        var j :| 0 <= j < |b| && b[j] == a[0];
        assert Less(a[0], b[0]) by {
          if i == 0 {} else {}
        }
        assert Less(b[0], a[0]) by {
          if j == 0 {} else {}
        }
        LessAsymmetric(a[0], b[0]);
      }
      forall k
        ensures k in a[1..] <==> k in b[1..]
      {
        if k in a[1..] {
          var i :| 1 <= i < |a| && a[i] == k;
          LessIrreflexive(k);
          assert k in b;
        }
        if k in b[1..] {
          var j :| 1 <= j < |b| && b[j] == k;
          LessIrreflexive(k);
          assert k in a;
        }
      }
      SortedSame(a[1..], b[1..]);
      assert a == [a[0]] + a[1..] && b == [b[0]] + b[1..];
    }
  }

  /** The smallest of a non-empty set of `long` keys. */
  function Least(s: set<int>): (t: int)
    requires s != {}
    ensures t in s && forall u :: u in s ==> t <= u
  {
    MinExists(s);
    var t: int :| t in s && forall u :: u in s ==> t <= u;
    t
  }

  /** The keys of a `TreeMap<Long, _>`, in the order its iterators visit them. */
  function SortedTimestamps(s: set<int>): (r: seq<int>)
    ensures |r| == |s|
    ensures forall t :: t in r <==> t in s
    ensures forall i, j :: 0 <= i < j < |r| ==> r[i] < r[j]
    decreases |s|
  {
    if s == {} then []
    else
      var t := Least(s);
      [t] + SortedTimestamps(s - {t})
  }

  /** The smallest key of a non-empty `TreeMap<Long, _>`: the key of its `firstEntry()`. */
  function FirstKey<V>(m: map<int, V>): (t: int)
    requires m != map[]
    ensures t in m && forall u :: u in m ==> t <= u
  {
    Least(m.Keys)
  }

  lemma MinExists(s: set<int>)
    requires s != {}
    ensures exists t :: t in s && forall u :: u in s ==> t <= u
  {
    HasElement(s);
    var x: int :| x in s;
    if s == {x} {
      assert forall u :: u in s ==> x <= u;
    } else {
      MinExists(s - {x});
      var t: int :| t in s - {x} && forall u :: u in s - {x} ==> t <= u;
      if x < t {
        forall u | u in s
          ensures x <= u
        {
          if u != x {
            assert u in s - {x};
          }
        }
      } else {
        forall u | u in s
          ensures t <= u
        {
          if u != x {
            assert u in s - {x};
          }
        }
        assert t in s;
      }
    }
  }

  lemma HasElement(s: set<int>)
    requires s != {}
    ensures exists x: int :: x in s
  {
    if forall x: int :: x !in s {
      assert false;
    }
  }

  /** A byte array placed in front of two others does not change how they compare. */
  lemma {:induction false} LessCommonPrefix(p: Bytes, a: Bytes, b: Bytes)
    ensures Less(p + a, p + b) <==> Less(a, b)
    decreases |p|
  {
    if |p| > 0 {
      assert (p + a)[1..] == p[1..] + a;
      assert (p + b)[1..] == p[1..] + b;
      LessCommonPrefix(p[1..], a, b);
    } else {
      assert p + a == a && p + b == b;
    }
  }

  /** Two arrays of one length that differ decide the order of anything appended to them. */
  lemma {:induction false} LessEqualLength(a: Bytes, b: Bytes, x: Bytes, y: Bytes)
    requires |a| == |b| && Less(a, b)
    ensures Less(a + x, b + y)
    decreases |a|
  {
    if a[0] == b[0] {
      assert (a + x)[1..] == a[1..] + x;
      assert (b + y)[1..] == b[1..] + y;
      LessEqualLength(a[1..], b[1..], x, y);
    }
  }

  predicate StartsWith(q: Bytes, p: Bytes)
  {
    |p| <= |q| && q[..|p|] == p
  }

  /** `lo <= q < hi` in the comparator's order: the keys `TreeMap.subMap(lo, hi)` keeps. */
  predicate InRange(q: Bytes, lo: Bytes, hi: Bytes)
  {
    !Less(q, lo) && Less(q, hi)
  }

  /**
   * The half-open range `[p, p + [0x7F])` holds exactly the arrays that
   * start with `p` and either end there or continue with a byte below 0x7F.
   */
  lemma {:induction false} ScanRange(p: Bytes, q: Bytes)
    ensures InRange(q, p, p + [BYTE_TERMINAL_VALUE])
        <==> StartsWith(q, p) && (|q| == |p| || q[|p|] < BYTE_TERMINAL_VALUE)
    decreases |p|
  {
    if |p| == 0 {
      assert p + [BYTE_TERMINAL_VALUE] == [BYTE_TERMINAL_VALUE];
      if |q| > 0 && q[0] == BYTE_TERMINAL_VALUE {
        assert !Less(q[1..], []);
      }
    } else if |q| > 0 && q[0] == p[0] {
      assert (p + [BYTE_TERMINAL_VALUE])[1..] == p[1..] + [BYTE_TERMINAL_VALUE];
      ScanRange(p[1..], q[1..]);
      assert StartsWith(q, p) <==> StartsWith(q[1..], p[1..]) by {
        if StartsWith(q[1..], p[1..]) {
          assert q[..|p|] == [q[0]] + q[1..][..|p| - 1];
          assert p == [p[0]] + p[1..];
        }
        if StartsWith(q, p) {
          assert q[1..][..|p| - 1] == q[..|p|][1..];
        }
      }
    }
  }

  /** `String.join(separator, parts)`. */
  function Join(separator: JString, parts: seq<JString>): JString
  {
    if |parts| == 0 then []
    else if |parts| == 1 then parts[0]
    else Join(separator, parts[..|parts| - 1]) + separator + parts[|parts| - 1]
  }

  /**
   * `Bytes.toBytes(int)`: the four bytes of a 32-bit two's-complement
   * integer, most significant first (the low byte is taken, then the value
   * is shifted right by eight, three times).
   */
  function Int32BE(i: int): (r: Bytes)
    requires -0x8000_0000 <= i < 0x8000_0000
    ensures |r| == 4
    ensures 0 <= i ==> Num4(r) == i
    ensures i < 0 ==> Num4(r) == i + 0x1_0000_0000
  {
    var u := if i < 0 then i + 0x1_0000_0000 else i;
    var u1 := u / 0x100;
    var u2 := u1 / 0x100;
    var u3 := u2 / 0x100;
    [u3 as byte, (u2 % 0x100) as byte, (u1 % 0x100) as byte, (u % 0x100) as byte]
  }

  /** The number four big-endian bytes spell. */
  function Num4(r: Bytes): int
    requires |r| == 4
  {
    r[0] as int * 0x100_0000 + r[1] as int * 0x1_0000 + r[2] as int * 0x100 + r[3] as int
  }

  lemma Num4Order(r: Bytes, s: Bytes)
    requires |r| == 4 && |s| == 4 && Num4(r) < Num4(s)
    ensures Less(r, s)
  {
    if r[0] == s[0] {
      assert Less(r, s) == Less(r[1..], s[1..]);
      if r[1] == s[1] {
        assert Less(r[1..], s[1..]) == Less(r[2..], s[2..]);
        if r[2] == s[2] {
          assert Less(r[2..], s[2..]) == Less(r[3..], s[3..]);
          assert Less(r[3..], s[3..]) == Less(r[4..], s[4..]) || r[3] != s[3];
        }
      }
    }
  }

  /** Non-negative indexes keep their numeric order as big-endian bytes. */
  lemma Int32BEOrder(i: int, j: int)
    requires 0 <= i < j < 0x8000_0000
    ensures Less(Int32BE(i), Int32BE(j))
  {
    Num4Order(Int32BE(i), Int32BE(j));
  }
}
