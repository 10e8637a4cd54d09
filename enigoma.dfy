/**
 * The Enigoma machine: a `Scrumble` owns the 26-byte table and rotates it in
 * place; an `Enigoma` embeds one and encrypts and decrypts whole texts,
 * stepping the table after every byte.
 */
module Enigoma {
  import opened Table
  import Rotor
  import opened Cipher

  /** The rotor: a fixed-size table that is rotated in place. */
  class Scrumble {
    /** The `[26]byte` table; its contents change, the array itself never does. */
    const t: array<byte>

    constructor (table: seq<byte>)
      requires |table| == N
      ensures fresh(t) && t[..] == table
    {
      t := new byte[N](i requires 0 <= i < N => table[i]);
    }

    /** `rotate`: shift every byte one place to the left; the first goes to the end. */
    method Rotate()
      requires t.Length == N
      modifies t
      ensures t[..] == Rotor.RotateLeft(old(t[..]))
    {
      var top := t[0];
      for i := 0 to N - 1
        invariant forall j :: 0 <= j < i ==> t[j] == old(t[j + 1])
        invariant forall j :: i <= j < N ==> t[j] == old(t[j])
      {
        t[i] := t[i + 1];
      }
      t[N - 1] := top;
    }

    /** `ptoc`: the table entry for the lowercase letter `b`. */
    method Ptoc(b: byte) returns (c: byte)
      requires t.Length == N && IsLower(b)
      ensures c == Rotor.Ptoc(t[..], b)
    {
      c := t[b - LowerA];
    }

    /** `indexAt`: a linear search for the first position holding `b`. */
    method IndexAt(b: byte) returns (k: int)
      ensures -1 <= k < t.Length
      ensures k >= 0 ==> t[k] == b && forall j :: 0 <= j < k ==> t[j] != b
      ensures k == -1 ==> forall j :: 0 <= j < t.Length ==> t[j] != b
      ensures k == Rotor.IndexOf(t[..], b)
    {
      for i := 0 to t.Length
        invariant forall j :: 0 <= j < i ==> t[j] != b
      {
        if t[i] == b {
          return i;
        }
      }
      return -1;
    }

    /** `ctop`: 'a' plus the position of the capital `b` in the table. */
    method Ctop(b: byte) returns (p: byte)
      requires t.Length == N && IsUpper(b)
      ensures p == Rotor.Ctop(t[..], b)
    {
      var k := IndexAt(b);
      p := (LowerA as int + k) as byte;
    }
  }

  /** The machine; Go embeds a `Scrumble`, so `e.t` is `e.s.t` here. */
  class Enigoma {
    const s: Scrumble

    /** The table is always a permutation of 'A'..'Z'. */
    ghost predicate Valid()
      reads s.t
    {
      s.t.Length == N && ValidTable(s.t[..])
    }

    /**
     * `NewEnigoma`: use the caller's table `m` when `checkTable` accepts it,
     * otherwise the one `createTable` draws with the random picks `picks`.
     * A nil slice is the empty sequence, which `checkTable` rejects.
     */
    constructor (m: seq<byte>, picks: seq<nat>)
      requires ValidPicks(picks, N)
      ensures fresh(s) && fresh(s.t)
      ensures Valid()
      ensures ValidTable(m) ==> s.t[..] == m
      ensures !ValidTable(m) ==> s.t[..] == Draw(Alphabet, picks)
    {
      var ok := CheckTable(m);
      var table: seq<byte>;
      if !ok {
        table := CreateTable(picks);
      } else {
        table := m[..N];
      }
      s := new Scrumble(table);
    }

    /**
     * `Encrypt`: spaces are copied, lowercase letters go through `ptoc`, the
     * table rotates after every byte, and the starting table is put back at
     * the end. The first other byte stops it with an error, leaving the table
     * rotated once per byte consumed before it.
     */
    method Encrypt(pt: seq<byte>) returns (r: Result<seq<byte>>)
      requires Valid()
      modifies s.t
      ensures Valid()
      ensures FirstBad(pt) == |pt| ==>
        r == Ok(EncryptText(old(s.t[..]), pt)) && s.t[..] == old(s.t[..])
      ensures FirstBad(pt) < |pt| ==>
        r == Err(OnlyLowercase) && s.t[..] == Rotor.Rotated(old(s.t[..]), FirstBad(pt))
    {
      var ot := s.t[..];
      var ct: seq<byte> := [];
      for i := 0 to |pt|
        invariant s.t.Length == N && s.t[..] == Rotor.Rotated(ot, i)
        invariant forall j :: 0 <= j < i ==> IsPlainByte(pt[j])
        invariant ct == EncryptText(ot, pt[..i])
      {
        var c := pt[i];
        Rotor.RotatedValid(ot, i);
        assert pt[..i + 1] == pt[..i] + [c];
        if c == Space {
          ct := ct + [Space];
        } else if c < LowerA || LowerZ < c {
          assert FirstBad(pt) == i by {
            FirstBadAt(pt, i);
          }
          return Err(OnlyLowercase);
        } else {
          var x := s.Ptoc(c);
          ct := ct + [x];
        }
        s.Rotate();
      }
      assert pt[..|pt|] == pt;
      FirstBadAt(pt, |pt|);
      forall j | 0 <= j < N {
        s.t[j] := ot[j];
      }
      r := Ok(ct);
    }

    /**
     * `Decrypt`: spaces are copied, capitals go through `ctop`, the table
     * rotates after every byte and is not put back.
     */
    method Decrypt(ct: seq<byte>) returns (pt: seq<byte>)
      requires Valid()
      requires AllCipher(ct)
      modifies s.t
      ensures Valid()
      ensures pt == DecryptText(old(s.t[..]), ct)
      ensures s.t[..] == Rotor.Rotated(old(s.t[..]), |ct|)
    {
      var ot := s.t[..];
      pt := [];
      for i := 0 to |ct|
        invariant s.t.Length == N && s.t[..] == Rotor.Rotated(ot, i)
        invariant pt == DecryptText(ot, ct[..i])
      {
        var c := ct[i];
        assert ct[..i + 1] == ct[..i] + [c];
        if c == Space {
          pt := pt + [Space];
        } else {
          var x := s.Ctop(c);
          pt := pt + [x];
        }
        s.Rotate();
      }
      assert ct[..|ct|] == ct;
      Rotor.RotatedValid(ot, |ct|);
    }
  }

  /**
   * The round trip of the package's test: encrypt on a fresh machine, then
   * decrypt the ciphertext on the same machine.
   */
  method EncryptThenDecrypt(m: seq<byte>, picks: seq<nat>, pt: seq<byte>)
    returns (ct: seq<byte>, back: seq<byte>)
    requires ValidPicks(picks, N)
    requires AllPlain(pt)
    ensures |ct| == |pt|
    ensures back == pt
  {
    var e := new Enigoma(m, picks);
    FirstBadAt(pt, |pt|);
    var r := e.Encrypt(pt);
    ct := r.value;
    DecryptEncrypt(e.s.t[..], pt);
    back := e.Decrypt(ct);
  }
}
