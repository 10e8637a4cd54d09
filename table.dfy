/**
 * Substitution tables of the single-rotor Enigoma cipher: the byte type, the
 * letter classes, what `checkTable` accepts, and the table `createTable`
 * draws when the caller supplies none.
 */
module Table {

  /** A Go `byte`. */
  newtype byte = b: int | 0 <= b < 0x100

  const Space: byte := 32    // ' '
  const UpperA: byte := 65   // 'A'
  const UpperZ: byte := 90   // 'Z'
  const LowerA: byte := 97   // 'a'
  const LowerZ: byte := 122  // 'z'

  /** Number of letters, and the length of every table (`[26]byte`). */
  const N: int := 26

  predicate IsUpper(b: byte) { UpperA <= b <= UpperZ }
  predicate IsLower(b: byte) { LowerA <= b <= LowerZ }

  predicate Distinct(s: seq<byte>) {
    forall i, j :: 0 <= i < j < |s| ==> s[i] != s[j]
  }

  /** A valid table: 26 bytes, each in 'A'..'Z', none repeated. */
  predicate ValidTable(m: seq<byte>) {
    |m| == N && (forall i :: 0 <= i < |m| ==> IsUpper(m[i])) && Distinct(m)
  }

  /** The string "ABCDEFGHIJKLMNOPQRSTUVWXYZ". */
  const Alphabet: seq<byte> := seq(N, i requires 0 <= i < N => UpperA + i as byte)

  /** A repetition-free sequence has as many distinct elements as it has entries. */
  lemma {:induction false} DistinctElements(s: seq<byte>)
    requires Distinct(s)
    ensures |set x | x in s| == |s|
  {
    if s != [] {
      var init := s[..|s| - 1];
      DistinctElements(init);
      assert (set x | x in s) == (set x | x in init) + {s[|s| - 1]};
      assert s[|s| - 1] !in (set x | x in init);
    }
  }

  /** A set of bytes drawn from [lo, hi) has at most hi - lo elements. */
  lemma {:induction false} BoundedSetSize(S: set<byte>, lo: int, hi: int)
    requires 0 <= lo && hi <= 0x100
    requires forall x :: x in S ==> lo <= x as int < hi
    ensures |S| <= if hi < lo then 0 else hi - lo
    decreases hi - lo
  {
    if hi <= lo {
      assert S == {} by {
        forall x | x in S ensures false { }
      }
    } else {
      var top := (hi - 1) as byte;
      var rest := S - {top};
      BoundedSetSize(rest, lo, hi - 1);
      if top in S {
        assert S == rest + {top};
      } else {
        assert S == rest;
      }
    }
  }

  /** A valid table holds every capital letter: it is a permutation of A-Z. */
  lemma {:induction false} ValidTableHasEvery(m: seq<byte>, b: byte)
    requires ValidTable(m)
    requires IsUpper(b)
    ensures b in m
  {
    DistinctElements(m);
    var elems := set x | x in m;
    BoundedSetSize(elems + {b}, UpperA as int, UpperZ as int + 1);
  }

  /** `checkTable`: a loop over `m` that records the bytes already seen. */
  method CheckTable(m: seq<byte>) returns (ok: bool)
    ensures ok == ValidTable(m)
  {
    if |m| != N {
      return false;
    }
    var seen: set<byte> := {};
    for i := 0 to |m|
      invariant seen == set j | 0 <= j < i :: m[j]
      invariant forall j :: 0 <= j < i ==> IsUpper(m[j])
      invariant Distinct(m[..i])
    {
      var v := m[i];
      if v < UpperA || UpperZ < v {
        return false;
      }
      if v in seen {
        return false;
      }
      seen := seen + {v};
    }
    assert m[..|m|] == m;
    return true;
  }

  /**
   * The random source of `createTable`: pick i is the value of
   * `rand.Intn(n - i)`, an index into what is left of the alphabet.
   */
  predicate ValidPicks(picks: seq<nat>, n: nat) {
    |picks| == n && forall i :: 0 <= i < n ==> picks[i] < n - i
  }

  /**
   * Selection without replacement: take `alpha[picks[0]]`, remove it from
   * `alpha`, and continue with the remaining picks.
   */
  function Draw(alpha: seq<byte>, picks: seq<nat>): (r: seq<byte>)
    requires ValidPicks(picks, |alpha|)
    ensures |r| == |alpha|
    decreases |alpha|
  {
    if alpha == [] then []
    else
      var a := picks[0];
      assert ValidPicks(picks[1..], |alpha| - 1) by {
        forall i | 0 <= i < |alpha| - 1 ensures picks[1..][i] < |alpha| - 1 - i {
          assert picks[1..][i] == picks[i + 1];
        }
      }
      [alpha[a]] + Draw(alpha[..a] + alpha[a + 1..], picks[1..])
  }

  /** One draw: the picked letter comes first, then the draw from what is left. */
  lemma DrawStep(done: seq<byte>, alpha: seq<byte>, picks: seq<nat>)
    requires alpha != [] && ValidPicks(picks, |alpha|)
    ensures ValidPicks(picks[1..], |alpha| - 1)
    ensures done + Draw(alpha, picks) ==
      (done + [alpha[picks[0]]]) + Draw(alpha[..picks[0]] + alpha[picks[0] + 1..], picks[1..])
  {
    assert ValidPicks(picks[1..], |alpha| - 1) by {
      forall i | 0 <= i < |alpha| - 1 ensures picks[1..][i] < |alpha| - 1 - i {
        assert picks[1..][i] == picks[i + 1];
      }
    }
  }

  /** Removing the entry at `a` keeps only letters of `alpha`, and no repeats when it had none. */
  lemma RemoveAt(alpha: seq<byte>, a: int)
    requires 0 <= a < |alpha|
    ensures forall x :: x in alpha[..a] + alpha[a + 1..] ==> x in alpha
    ensures Distinct(alpha) ==>
      Distinct(alpha[..a] + alpha[a + 1..]) && alpha[a] !in alpha[..a] + alpha[a + 1..]
  {
    var rest := alpha[..a] + alpha[a + 1..];
    forall x | x in rest ensures x in alpha {
      var k :| 0 <= k < |rest| && rest[k] == x;
      if k < a { assert alpha[k] == x; } else { assert alpha[k + 1] == x; }
    }
    if Distinct(alpha) {
      forall i, j | 0 <= i < j < |rest| ensures rest[i] != rest[j] {
        var i' := if i < a then i else i + 1;
        var j' := if j < a then j else j + 1;
        assert rest[i] == alpha[i'] && rest[j] == alpha[j'];
      }
      forall k | 0 <= k < |rest| ensures rest[k] != alpha[a] {
        var k' := if k < a then k else k + 1;
        assert rest[k] == alpha[k'];
      }
    }
  }

  /** Draw rearranges `alpha`: same length, only its letters, no repeats added. */
  lemma {:induction false} DrawPermutes(alpha: seq<byte>, picks: seq<nat>)
    requires ValidPicks(picks, |alpha|)
    ensures |Draw(alpha, picks)| == |alpha|
    ensures forall x :: x in Draw(alpha, picks) ==> x in alpha
    ensures Distinct(alpha) ==> Distinct(Draw(alpha, picks))
    decreases |alpha|
  {
    if alpha != [] {
      var a := picks[0];
      var rest := alpha[..a] + alpha[a + 1..];
      DrawStep([], alpha, picks);
      DrawPermutes(rest, picks[1..]);
      RemoveAt(alpha, a);
      var r, tail := Draw(alpha, picks), Draw(rest, picks[1..]);
      assert r == [alpha[a]] + tail;
      if Distinct(alpha) {
        forall i, j | 0 <= i < j < |r| ensures r[i] != r[j] {
          assert r[j] == tail[j - 1];
          if i == 0 {
            assert tail[j - 1] in tail;
          } else {
            assert r[i] == tail[i - 1];
          }
        }
      }
    }
  }

  /** Every table `createTable` can return is valid. */
  lemma DrawnTableValid(picks: seq<nat>)
    requires ValidPicks(picks, N)
    ensures ValidTable(Draw(Alphabet, picks))
  {
    DrawPermutes(Alphabet, picks);
    var t := Draw(Alphabet, picks);
    forall i | 0 <= i < N ensures IsUpper(t[i]) {
      assert t[i] in Alphabet;
    }
  }

  /**
   * `createTable`: for each position, draw one of the letters still unused.
   * The draws of `rand.Intn` are supplied as `picks`.
   */
  method CreateTable(picks: seq<nat>) returns (t: seq<byte>)
    requires ValidPicks(picks, N)
    ensures t == Draw(Alphabet, picks)
    ensures ValidTable(t)
  {
    var ret := new byte[N];
    var alpha := Alphabet;
    for i := 0 to N
      invariant ValidPicks(picks[i..], |alpha|)
      invariant ret[..i] + Draw(alpha, picks[i..]) == Draw(Alphabet, picks)
    {
      ghost var done := ret[..i];
      DrawStep(done, alpha, picks[i..]);
      var a := picks[i];
      ret[i] := alpha[a];
      alpha := alpha[..a] + alpha[a + 1..];
      assert ret[..i + 1] == done + [ret[i]];
      assert picks[i..][1..] == picks[i + 1..];
    }
    t := ret[..];
    assert ret[..N] == t;
    DrawnTableValid(picks);
  }
}
