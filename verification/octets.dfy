/**
 Octets and unsigned big-endian octet strings: the fold that reads one back
 into a number, and the loop that writes the low octets of a number out.
 */
module Octets {
  import opened Numeric

  /** An octet as Ruby's `unpack('C*')` yields it and `pack('C*')` takes it. */
  type byte = x: int | 0 <= x < 256

  /** Euclidean division is unique: any quotient/remainder pair is the one. */
  lemma DivModUnique(c: int, d: int, q: int, r: int)
    requires d > 0 && 0 <= r < d && c == q * d + r
    ensures c / d == q && c % d == r
  {
    var q0, r0 := c / d, c % d;
    assert (q - q0) * d == r0 - r by {
      assert c == q0 * d + r0;
    }
    if q > q0 {
      MulAtLeast(q - q0, d);
    } else if q < q0 {
      MulAtLeast(q0 - q, d);
    }
  }

  lemma MulAtLeast(k: int, d: int)
    requires k >= 1 && d > 0
    ensures k * d >= d
  {
    assert k * d == (k - 1) * d + d;
  }

  /** Peeling the low octet off c and reducing the rest modulo m reduces c modulo 256 * m. */
  lemma LowOctetMod(c: int, m: int)
    requires m > 0
    ensures ((c / 256) % m) * 256 + c % 256 == c % (256 * m)
  {
    var q, r := c / 256, c % 256;
    var q1, q2 := q / m, q % m;
    assert c == q * 256 + r;
    assert q == q1 * m + q2;
    assert c == q1 * (256 * m) + (q2 * 256 + r);
    assert 0 <= q2 * 256 + r < 256 * m;
    DivModUnique(c, 256 * m, q1, q2 * 256 + r);
  }

  /**
   The unsigned value of a big-endian octet string: a left fold that shifts the
   accumulator by one octet and ors the next octet in.
   */
  function ToNat(b: seq<byte>): nat
  {
    if |b| == 0 then 0 else ToNat(b[..|b| - 1]) * 256 + b[|b| - 1] as int
  }

  /** n octets hold values below 256^n. */
  lemma {:induction false} ToNatBound(b: seq<byte>)
    ensures ToNat(b) < Pow2(8 * |b|)
  {
    if |b| > 0 {
      ToNatBound(b[..|b| - 1]);
      Pow2Octet(|b| - 1);
    }
  }

  /** Appending an octet shifts the value left by eight bits. */
  lemma ToNatSnoc(a: seq<byte>, x: byte)
    ensures ToNat(a + [x]) == ToNat(a) * 256 + x as int
  {
    assert (a + [x])[..|a|] == a;
  }

  lemma Regroup(t: int, t1: int, tb: int, hi: int, w: int, ww: int, rest: int, lo: int)
    requires t == t1 * 256 + lo && t1 == hi * w + rest && tb == rest * 256 + lo && ww == 256 * w
    ensures t == hi * ww + tb
  {
  }

  /** The first octet carries the weight 256^(|b|-1). */
  lemma {:induction false} ToNatFirst(b: seq<byte>)
    requires |b| >= 1
    ensures ToNat(b) == b[0] as int * Pow2(8 * (|b| - 1)) + ToNat(b[1..])
  {
    if |b| == 1 {
      assert b[..0] == [];
      assert b[1..] == [];
    } else {
      var init, lo := b[..|b| - 1], b[|b| - 1];
      assert b[1..] == init[1..] + [lo];
      var w, ww := Pow2(8 * (|b| - 2)), Pow2(8 * (|b| - 1));
      var t, t1, tb, rest := ToNat(b), ToNat(init), ToNat(b[1..]), ToNat(init[1..]);
      assert t == t1 * 256 + lo as int;
      assert tb == rest * 256 + lo as int by {
        ToNatSnoc(init[1..], lo);
      }
      assert t1 == b[0] as int * w + rest by {
        ToNatFirst(init);
        assert init[0] == b[0];
      }
      assert ww == 256 * w by {
        Pow2Octet(|b| - 2);
      }
      assert t == b[0] as int * ww + tb by {
        Regroup(t, t1, tb, b[0] as int, w, ww, rest, lo as int);
      }
    }
  }

  /**
   The low n octets of c, most significant first: the source collects
   `c & 0xff` and shifts `c >>= 8` n times, then reverses the list. Ruby's
   `&` and `>>` on a negative integer act on its infinite two's complement,
   which Dafny's Euclidean `%` and `/` by 256 reproduce.
   */
  function Serialize(c: int, n: nat): (b: seq<byte>)
    ensures |b| == n
    decreases n
  {
    if n == 0 then [] else Serialize(c / 256, n - 1) + [(c % 256) as byte]
  }

  lemma SerializeLast(c: int, n: nat)
    requires n > 0
    ensures Serialize(c, n)[..n - 1] == Serialize(c / 256, n - 1)
    ensures Serialize(c, n)[n - 1] as int == c % 256
  {
    var init := Serialize(c / 256, n - 1);
    var low := (c % 256) as byte;
    assert Serialize(c, n) == init + [low];
  }

  /** Serialize writes exactly c modulo 256^n. */
  lemma {:induction false} SerializeValue(c: int, n: nat)
    ensures ToNat(Serialize(c, n)) == c % Pow2(8 * n)
    decreases n
  {
    if n > 0 {
      var b := Serialize(c, n);
      var m := Pow2(8 * (n - 1));
      var rest := ToNat(Serialize(c / 256, n - 1));
      assert ToNat(b) == rest * 256 + c % 256 by {
        SerializeLast(c, n);
      }
      assert rest == (c / 256) % m by {
        SerializeValue(c / 256, n - 1);
      }
      assert Pow2(8 * n) == 256 * m by {
        Pow2Octet(n - 1);
      }
      LowOctetMod(c, m);
    }
  }

  /** Writing the value of an octet string back at its own width gives it back. */
  lemma {:induction false} SerializeToNat(b: seq<byte>)
    ensures Serialize(ToNat(b), |b|) == b
  {
    if |b| > 0 {
      var init := b[..|b| - 1];
      var u := ToNat(b);
      DivModUnique(u, 256, ToNat(init), b[|b| - 1] as int);
      SerializeToNat(init);
      assert b == init + [b[|b| - 1]];
    }
  }

  /** Serialize only sees c modulo 256^n. */
  lemma SerializeMod(c: int, n: nat)
    ensures Serialize(c, n) == Serialize(c % Pow2(8 * n), n)
  {
    SerializeValue(c, n);
    SerializeToNat(Serialize(c, n));
  }
}
