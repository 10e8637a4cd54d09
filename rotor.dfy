/**
 * The rotor's table as a value: the one-step left rotation that follows every
 * character, and the two lookups `ptoc` (plain to cipher) and `ctop` (cipher
 * to plain, through the search `indexAt`).
 */
module Rotor {
  import opened Table

  /** One step of the rotor: "A B C ... Z" becomes "B C ... Z A". */
  function RotateLeft(t: seq<byte>): (r: seq<byte>)
    requires |t| == N
    ensures |r| == N
  {
    t[1..] + [t[0]]
  }

  /** After one step, position `i` holds what position `(i + 1) mod 26` held. */
  lemma RotateLeftAt(t: seq<byte>, i: int)
    requires |t| == N && 0 <= i < N
    ensures RotateLeft(t)[i] == t[(i + 1) % N]
  {
  }

  /** The table after `n` steps. */
  function Rotated(t: seq<byte>, n: nat): (r: seq<byte>)
    requires |t| == N
    ensures |r| == N
  {
    if n == 0 then t else RotateLeft(Rotated(t, n - 1))
  }

  /** After `n` steps, position `i` holds what position `(i + n) mod 26` held. */
  lemma {:induction false} RotatedAt(t: seq<byte>, n: nat, i: int)
    requires |t| == N && 0 <= i < N
    ensures Rotated(t, n)[i] == t[(i + n) % N]
  {
    if n > 0 {
      RotateLeftAt(Rotated(t, n - 1), i);
      RotatedAt(t, n - 1, (i + 1) % N);
    }
  }

  /** Twenty-six steps bring the table back to where it started. */
  lemma RotatedFullTurn(t: seq<byte>)
    requires |t| == N
    ensures Rotated(t, N) == t
  {
    forall i | 0 <= i < N ensures Rotated(t, N)[i] == t[i] {
      RotatedAt(t, N, i);
    }
  }

  /** Rotation keeps a table valid. */
  lemma RotateLeftValid(t: seq<byte>)
    requires ValidTable(t)
    ensures ValidTable(RotateLeft(t))
  {
    var r := RotateLeft(t);
    forall i, j | 0 <= i < j < N ensures r[i] != r[j] {
      RotateLeftAt(t, i);
      RotateLeftAt(t, j);
    }
  }

  lemma {:induction false} RotatedValid(t: seq<byte>, n: nat)
    requires ValidTable(t)
    ensures ValidTable(Rotated(t, n))
  {
    if n > 0 {
      RotatedValid(t, n - 1);
      RotateLeftValid(Rotated(t, n - 1));
    }
  }

  /** `ptoc`: the letter the table assigns to the lowercase letter `b`. */
  function Ptoc(t: seq<byte>, b: byte): (c: byte)
    requires |t| == N && IsLower(b)
    ensures ValidTable(t) ==> IsUpper(c)
  {
    t[b - LowerA]
  }

  /** `indexAt`: the first position of `b` in `t`, or -1 when `b` is absent. */
  function IndexOf(t: seq<byte>, b: byte): (k: int)
    ensures -1 <= k < |t|
    ensures k >= 0 ==> t[k] == b
    ensures forall j :: 0 <= j < |t| && (j < k || k == -1) ==> t[j] != b
  {
    if t == [] then -1
    else if t[0] == b then 0
    else
      var k := IndexOf(t[1..], b);
      if k == -1 then -1 else k + 1
  }

  /** In a table without repeats, the position holding `b` is the one found. */
  lemma IndexOfDistinct(t: seq<byte>, j: int)
    requires Distinct(t) && 0 <= j < |t|
    ensures IndexOf(t, t[j]) == j
  {
  }

  /**
   * `ctop`: 'a' plus the position of `b` in the table. An absent letter gives
   * position -1, hence the byte just below 'a'.
   */
  function Ctop(t: seq<byte>, b: byte): (p: byte)
    requires |t| == N && IsUpper(b)
    ensures p == LowerA - 1 ==> forall j :: 0 <= j < N ==> t[j] != b
    ensures p != LowerA - 1 ==> IsLower(p) && t[p - LowerA] == b
  {
    (LowerA as int + IndexOf(t, b)) as byte
  }

  /** Decrypting a letter undoes encrypting it. */
  lemma CtopPtoc(t: seq<byte>, b: byte)
    requires ValidTable(t) && IsLower(b)
    ensures Ctop(t, Ptoc(t, b)) == b
  {
    IndexOfDistinct(t, (b - LowerA) as int);
  }

  /** Encrypting a letter undoes decrypting it. */
  lemma PtocCtop(t: seq<byte>, b: byte)
    requires ValidTable(t) && IsUpper(b)
    ensures IsLower(Ctop(t, b)) && Ptoc(t, Ctop(t, b)) == b
  {
    ValidTableHasEvery(t, b);
  }
}
