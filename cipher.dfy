/**
 * What `Encrypt` and `Decrypt` compute over a whole text: each byte goes
 * through the table as rotated once per byte already processed, spaces
 * included.
 */
module Cipher {
  import opened Table
  import opened Rotor

  /** Go's `(string, error)` result; an error carries its message. */
  datatype Result<T> = Ok(value: T) | Err(msg: string)

  /** The message of the error `Encrypt` returns. */
  const OnlyLowercase: string := "only 'a' to 'z' in input text"

  /** A byte `Encrypt` accepts: a space or 'a'..'z'. */
  predicate IsPlainByte(c: byte) { c == Space || IsLower(c) }

  /** A byte `Decrypt` handles without `ctop` panicking: a space or 'A'..'Z'. */
  predicate IsCipherByte(c: byte) { c == Space || IsUpper(c) }

  predicate AllPlain(s: seq<byte>) { forall i :: 0 <= i < |s| ==> IsPlainByte(s[i]) }
  predicate AllCipher(s: seq<byte>) { forall i :: 0 <= i < |s| ==> IsCipherByte(s[i]) }

  /** One step of `Encrypt`'s loop: a space is copied, a letter goes through `ptoc`. */
  function EncryptByte(t: seq<byte>, c: byte): (e: byte)
    requires |t| == N && IsPlainByte(c)
    ensures ValidTable(t) ==> IsCipherByte(e) && (e == Space <==> c == Space)
  {
    if c == Space then Space else Ptoc(t, c)
  }

  /** One step of `Decrypt`'s loop: a space is copied, a letter goes through `ctop`. */
  function DecryptByte(t: seq<byte>, c: byte): (d: byte)
    requires |t| == N && IsCipherByte(c)
    ensures ValidTable(t) ==> IsPlainByte(d) && (d == Space <==> c == Space)
  {
    if c == Space then Space
    else
      assert ValidTable(t) ==> c in t by {
        if ValidTable(t) { ValidTableHasEvery(t, c); }
      }
      Ctop(t, c)
  }

  /** The ciphertext of `pt` from the starting table `t`: byte `i` is encrypted with `t` rotated `i` times. */
  function EncryptText(t: seq<byte>, pt: seq<byte>): (ct: seq<byte>)
    requires |t| == N && AllPlain(pt)
    ensures |ct| == |pt|
  {
    if pt == [] then []
    else
      var n := |pt| - 1;
      EncryptText(t, pt[..n]) + [EncryptByte(Rotated(t, n), pt[n])]
  }

  /** The plaintext of `ct` from the starting table `t`: byte `i` is decrypted with `t` rotated `i` times. */
  function DecryptText(t: seq<byte>, ct: seq<byte>): (pt: seq<byte>)
    requires |t| == N && AllCipher(ct)
    ensures |pt| == |ct|
  {
    if ct == [] then []
    else
      var n := |ct| - 1;
      DecryptText(t, ct[..n]) + [DecryptByte(Rotated(t, n), ct[n])]
  }

  /** The position of the first byte `Encrypt` rejects, or the length when there is none. */
  function FirstBad(pt: seq<byte>): (k: nat)
    ensures k <= |pt|
    ensures forall j :: 0 <= j < k ==> IsPlainByte(pt[j])
    ensures k < |pt| ==> !IsPlainByte(pt[k])
  {
    if pt == [] then 0
    else if !IsPlainByte(pt[0]) then 0
    else
      var k := FirstBad(pt[1..]);
      assert forall j :: 1 <= j < k + 1 ==> pt[j] == pt[1..][j - 1];
      k + 1
  }

  /** `FirstBad` is pinned down by its contract: the first rejected byte, if any. */
  lemma FirstBadAt(pt: seq<byte>, i: int)
    requires 0 <= i <= |pt|
    requires forall j :: 0 <= j < i ==> IsPlainByte(pt[j])
    requires i < |pt| ==> !IsPlainByte(pt[i])
    ensures FirstBad(pt) == i
  {
  }

  lemma {:induction false} EncryptTextAt(t: seq<byte>, pt: seq<byte>, i: int)
    requires |t| == N && AllPlain(pt) && 0 <= i < |pt|
    ensures EncryptText(t, pt)[i] == EncryptByte(Rotated(t, i), pt[i])
    decreases |pt|
  {
    var n := |pt| - 1;
    if i < n {
      assert AllPlain(pt[..n]) by {
        forall j | 0 <= j < n ensures IsPlainByte(pt[..n][j]) { assert pt[..n][j] == pt[j]; }
      }
      EncryptTextAt(t, pt[..n], i);
    }
  }

  lemma {:induction false} DecryptTextAt(t: seq<byte>, ct: seq<byte>, i: int)
    requires |t| == N && AllCipher(ct) && 0 <= i < |ct|
    ensures DecryptText(t, ct)[i] == DecryptByte(Rotated(t, i), ct[i])
    decreases |ct|
  {
    var n := |ct| - 1;
    if i < n {
      assert AllCipher(ct[..n]) by {
        forall j | 0 <= j < n ensures IsCipherByte(ct[..n][j]) { assert ct[..n][j] == ct[j]; }
      }
      DecryptTextAt(t, ct[..n], i);
    }
  }

  /**
   * Closed form of encryption: spaces stay in place, and the letter `c` at
   * position `i` becomes `t[(c - 'a' + i) mod 26]`, a capital letter.
   */
  lemma EncryptClosedForm(t: seq<byte>, pt: seq<byte>, i: int)
    requires ValidTable(t) && AllPlain(pt) && 0 <= i < |pt|
    ensures pt[i] == Space ==> EncryptText(t, pt)[i] == Space
    ensures pt[i] != Space ==>
      IsUpper(EncryptText(t, pt)[i]) &&
      EncryptText(t, pt)[i] == t[((pt[i] - LowerA) as int + i) % N]
  {
    EncryptTextAt(t, pt, i);
    if pt[i] != Space {
      var k := (pt[i] - LowerA) as int;
      var r := Rotated(t, i);
      RotatedAt(t, i, k);
    }
  }

  /** Going back `i` places and then forward `i` places returns to the start. */
  lemma ModBackForth(k: int, i: int)
    requires 0 <= k < N
    ensures ((k - i) % N + i) % N == k
  {
    var q := (k - i) / N;
    assert (k - i) % N + i == k - N * q;
  }

  /** Rotating `i` times moves every letter `i` places towards the front, cyclically. */
  lemma IndexOfRotated(t: seq<byte>, i: nat, c: byte)
    requires ValidTable(t) && IsUpper(c)
    ensures 0 <= IndexOf(t, c)
    ensures IndexOf(Rotated(t, i), c) == (IndexOf(t, c) - i) % N
  {
    ValidTableHasEvery(t, c);
    var k := IndexOf(t, c);
    var p := (k - i) % N;
    var r := Rotated(t, i);
    RotatedAt(t, i, p);
    ModBackForth(k, i);
    RotatedValid(t, i);
    IndexOfDistinct(r, p);
  }

  /** A capital decrypted at position `i` lands `i` places before its position in `t`. */
  lemma CtopRotated(t: seq<byte>, i: nat, c: byte)
    requires ValidTable(t) && IsUpper(c)
    ensures Ctop(Rotated(t, i), c) as int == LowerA as int + (IndexOf(t, c) - i) % N
  {
    IndexOfRotated(t, i, c);
  }

  /**
   * Closed form of decryption: spaces stay in place, and the capital `c` at
   * position `i` becomes 'a' + ((position of `c` in `t`) - i) mod 26.
   */
  lemma DecryptClosedForm(t: seq<byte>, ct: seq<byte>, i: int)
    requires ValidTable(t) && AllCipher(ct) && 0 <= i < |ct|
    ensures ct[i] == Space ==> DecryptText(t, ct)[i] == Space
    ensures ct[i] != Space ==>
      DecryptText(t, ct)[i] as int == LowerA as int + (IndexOf(t, ct[i]) - i) % N
  {
    DecryptTextAt(t, ct, i);
    if ct[i] != Space {
      var c, r := ct[i], Rotated(t, i);
      assert DecryptText(t, ct)[i] == Ctop(r, c);
      CtopRotated(t, i, c);
    }
  }

  /** One byte: decryption undoes encryption with the same table. */
  lemma DecryptEncryptByte(t: seq<byte>, c: byte)
    requires ValidTable(t) && IsPlainByte(c)
    ensures IsCipherByte(EncryptByte(t, c)) && DecryptByte(t, EncryptByte(t, c)) == c
  {
    if c != Space {
      CtopPtoc(t, c);
    }
  }

  /** One byte: encryption undoes decryption with the same table. */
  lemma EncryptDecryptByte(t: seq<byte>, c: byte)
    requires ValidTable(t) && IsCipherByte(c)
    ensures IsPlainByte(DecryptByte(t, c)) && EncryptByte(t, DecryptByte(t, c)) == c
  {
    if c != Space {
      PtocCtop(t, c);
    }
  }

  /** Decrypting from the same starting table recovers the plaintext. */
  lemma {:induction false} DecryptEncrypt(t: seq<byte>, pt: seq<byte>)
    requires ValidTable(t) && AllPlain(pt)
    ensures AllCipher(EncryptText(t, pt))
    ensures DecryptText(t, EncryptText(t, pt)) == pt
    decreases |pt|
  {
    if pt != [] {
      var n := |pt| - 1;
      var init, c := pt[..n], pt[n];
      assert AllPlain(init) by {
        forall j | 0 <= j < n ensures IsPlainByte(init[j]) { assert init[j] == pt[j]; }
      }
      DecryptEncrypt(t, init);
      var r := Rotated(t, n);
      RotatedValid(t, n);
      DecryptEncryptByte(r, c);
      var ct0, e := EncryptText(t, init), EncryptByte(r, c);
      var ct := EncryptText(t, pt);
      assert ct == ct0 + [e];
      assert AllCipher(ct) by {
        forall j | 0 <= j < |ct| ensures IsCipherByte(ct[j]) {
          if j < n { assert ct[j] == ct0[j]; }
        }
      }
      assert ct[..n] == ct0;
      assert DecryptText(t, ct) == DecryptText(t, ct0) + [DecryptByte(r, e)];
      assert pt == init + [c];
    }
  }

  /** Encrypting from the same starting table recovers the ciphertext. */
  lemma {:induction false} EncryptDecrypt(t: seq<byte>, ct: seq<byte>)
    requires ValidTable(t) && AllCipher(ct)
    ensures AllPlain(DecryptText(t, ct))
    ensures EncryptText(t, DecryptText(t, ct)) == ct
    decreases |ct|
  {
    if ct != [] {
      var n := |ct| - 1;
      var init, c := ct[..n], ct[n];
      assert AllCipher(init) by {
        forall j | 0 <= j < n ensures IsCipherByte(init[j]) { assert init[j] == ct[j]; }
      }
      EncryptDecrypt(t, init);
      var r := Rotated(t, n);
      RotatedValid(t, n);
      EncryptDecryptByte(r, c);
      var pt0, d := DecryptText(t, init), DecryptByte(r, c);
      var pt := DecryptText(t, ct);
      assert pt == pt0 + [d];
      assert AllPlain(pt) by {
        forall j | 0 <= j < |pt| ensures IsPlainByte(pt[j]) {
          if j < n { assert pt[j] == pt0[j]; }
        }
      }
      assert pt[..n] == pt0;
      assert EncryptText(t, pt) == EncryptText(t, pt0) + [EncryptByte(r, d)];
      assert ct == init + [c];
    }
  }
}
