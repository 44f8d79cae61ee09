/** Byte strings, their lexicographic order and big-endian integers.

A byte is written as the character whose code is that byte, so that table names, keys and
stored bytes share one type, as they do in the engine's key space (a table name is used there
through its UTF-8 bytes). */
module Bytes {

  type Bytes = seq<char>

  datatype Option<+T> = None | Some(value: T)

  /** Strict lexicographic order, a proper prefix first: the order of Rust byte slices. */
  predicate Below(a: Bytes, b: Bytes)
  {
    if b == [] then false
    else if a == [] then true
    else if a[0] != b[0] then a[0] < b[0]
    else Below(a[1..], b[1..])
  }

  predicate AtMost(a: Bytes, b: Bytes) {
    a == b || Below(a, b)
  }

  lemma {:induction false} BelowIrreflexive(a: Bytes)
    ensures !Below(a, a)
  {
    if a != [] {
      BelowIrreflexive(a[1..]);
    }
  }

  lemma {:induction false} BelowTransitive(a: Bytes, b: Bytes, c: Bytes)
    requires Below(a, b) && Below(b, c)
    ensures Below(a, c)
  {
    if a != [] && a[0] == b[0] == c[0] {
      BelowTransitive(a[1..], b[1..], c[1..]);
    }
  }

  lemma {:induction false} BelowTotal(a: Bytes, b: Bytes)
    ensures a == b || Below(a, b) || Below(b, a)
  {
    if a != [] && b != [] && a[0] == b[0] {
      BelowTotal(a[1..], b[1..]);
      assert a == [a[0]] + a[1..] && b == [b[0]] + b[1..];
    }
  }

  lemma BelowAsymmetric(a: Bytes, b: Bytes)
    requires Below(a, b)
    ensures !Below(b, a) && a != b
  {
    BelowIrreflexive(a);
    if Below(b, a) {
      BelowTransitive(a, b, a);
    }
  }

  /** A common prefix does not matter to the order. */
  lemma {:induction false} BelowCommonPrefix(p: Bytes, a: Bytes, b: Bytes)
    ensures Below(p + a, p + b) == Below(a, b)
  {
    if p == [] {
      assert p + a == a && p + b == b;
    } else {
      assert (p + a)[1..] == p[1..] + a && (p + b)[1..] == p[1..] + b;
      BelowCommonPrefix(p[1..], a, b);
    }
  }

  /** Strings of one length are ordered by themselves before whatever follows them. */
  lemma {:induction false} BelowSameLength(a: Bytes, b: Bytes, x: Bytes, y: Bytes)
    requires |a| == |b| && a != b
    ensures Below(a + x, b + y) == Below(a, b)
  {
    assert (a + x)[1..] == a[1..] + x && (b + y)[1..] == b[1..] + y;
    if a[0] == b[0] {
      assert a == [a[0]] + a[1..] && b == [b[0]] + b[1..];
      BelowSameLength(a[1..], b[1..], x, y);
    }
  }

  // ---- Big-endian integers ----

  function Pow256(width: nat): (p: nat)
    ensures p >= 1
  {
    if width == 0 then 1 else 256 * Pow256(width - 1)
  }

  /** `to_be_bytes` of an integer of `width` bytes. */
  function BigEndian(n: nat, width: nat): (r: Bytes)
    requires n < Pow256(width)
    ensures |r| == width
  {
    if width == 0 then []
    else BigEndian(n / 256, width - 1) + [(n % 256) as char]
  }

  /** Byte order of fixed-width big-endian integers is numeric order. */
  lemma {:induction false} BigEndianOrder(a: nat, b: nat, width: nat)
    requires a < b < Pow256(width)
    ensures Below(BigEndian(a, width), BigEndian(b, width))
  {
    if width > 0 {
      var x, y := BigEndian(a / 256, width - 1), BigEndian(b / 256, width - 1);
      if a / 256 < b / 256 {
        BigEndianOrder(a / 256, b / 256, width - 1);
        BelowIrreflexive(x);
        BelowSameLength(x, y, [(a % 256) as char], [(b % 256) as char]);
      } else {
        BelowCommonPrefix(x, [(a % 256) as char], [(b % 256) as char]);
      }
    }
  }

  lemma BigEndianInjective(a: nat, b: nat, width: nat)
    requires a < Pow256(width) && b < Pow256(width)
    requires BigEndian(a, width) == BigEndian(b, width)
    ensures a == b
  {
    BelowIrreflexive(BigEndian(a, width));
    if a < b {
      BigEndianOrder(a, b, width);
    } else if b < a {
      BigEndianOrder(b, a, width);
    }
  }

  // ---- Key order of a finite set, as an ordered scan yields it ----

  ghost predicate StrictlyAscending(s: seq<Bytes>) {
    forall i, j :: 0 <= i < j < |s| ==> Below(s[i], s[j])
  }

  predicate IsSmallest(s: set<Bytes>, m: Bytes) {
    m in s && forall k :: k in s && k != m ==> Below(m, k)
  }

  lemma {:induction false} SmallestExists(s: set<Bytes>)
    requires s != {}
    ensures exists m :: IsSmallest(s, m)
  {
    var a :| a in s;
    var rest := s - {a};
    assert s == rest + {a};
    if rest == {} {
      assert IsSmallest(s, a);
    } else {
      SmallestExists(rest);
      var b :| IsSmallest(rest, b);
      BelowTotal(a, b);
      if Below(b, a) {
        assert IsSmallest(s, b);
      } else {
        forall k | k in s && k != a ensures Below(a, k) {
          if k != b {
            BelowTransitive(a, b, k);
          }
        }
        assert IsSmallest(s, a);
      }
    }
  }

  /** The elements of `s` in ascending order. */
  function Ordered(s: set<Bytes>): (r: seq<Bytes>)
    ensures StrictlyAscending(r)
    ensures forall k :: k in r <==> k in s
  {
    if s == {} then []
    else
      SmallestExists(s);
      assert forall m, n :: IsSmallest(s, m) && IsSmallest(s, n) ==> m == n by {
        forall m, n | IsSmallest(s, m) && IsSmallest(s, n) ensures m == n {
          if m != n {
            BelowAsymmetric(m, n);
          }
        }
      }
      var m :| m in s && IsSmallest(s, m);
      [m] + Ordered(s - {m})
  }

  /** An ascending sequence is determined by its elements. */
  lemma {:induction false} AscendingIsUnique(a: seq<Bytes>, b: seq<Bytes>)
    requires StrictlyAscending(a) && StrictlyAscending(b) && forall k :: k in a <==> k in b
    ensures a == b
  {
    EmptyTogether(a, b);
    if a != [] {
      SameFirst(a, b);
      forall k ensures k in a[1..] <==> k in b[1..] {
        BelowIrreflexive(a[0]);
        assert k in a[1..] <==> k in a && k != a[0] by { assert a == [a[0]] + a[1..]; }
        assert k in b[1..] <==> k in b && k != b[0] by { assert b == [b[0]] + b[1..]; }
      }
      AscendingIsUnique(a[1..], b[1..]);
      assert a == [a[0]] + a[1..] && b == [b[0]] + b[1..];
    }
  }

  lemma EmptyTogether(a: seq<Bytes>, b: seq<Bytes>)
    requires forall k :: k in a <==> k in b
    ensures a == [] <==> b == []
  {
    if a != [] {
      assert a[0] in b;
    }
    if b != [] {
      assert b[0] in a;
    }
  }

  lemma SameFirst(a: seq<Bytes>, b: seq<Bytes>)
    requires StrictlyAscending(a) && StrictlyAscending(b) && a != [] && b != [] && forall k :: k in a <==> k in b
    ensures a[0] == b[0]
  {
    assert a[0] in b && b[0] in a;
    var i :| 0 <= i < |b| && b[i] == a[0];
    var j :| 0 <= j < |a| && a[j] == b[0];
    if i > 0 && j > 0 {
      assert Below(b[0], b[i]) && Below(a[0], a[j]);
      BelowAsymmetric(a[0], b[0]);
    }
  }
}
