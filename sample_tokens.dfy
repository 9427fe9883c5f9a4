/**
 * A concrete sign/verify pair showing that the token assumption of `Crypto`
 * can be met by a verifier that expires tokens: the id and the issue time
 * are written in unary, and the verifier reads them back.
 */
module SampleTokens {
  import opened Wrappers
  import opened Crypto

  /** `n` copies of `c`. */
  function Repeat(c: char, n: nat): (r: string)
    ensures |r| == n && forall i :: 0 <= i < n ==> r[i] == c
  {
    seq(n, _ => c)
  }

  /** The number of occurrences of `c` in `s`. */
  function Count(s: string, c: char): nat
    decreases |s|
  {
    if |s| == 0 then 0 else (if s[0] == c then 1 else 0) + Count(s[1..], c)
  }

  lemma {:induction false} CountConcat(a: string, b: string, c: char)
    ensures Count(a + b, c) == Count(a, c) + Count(b, c)
    decreases |a|
  {
    if |a| == 0 {
      assert a + b == b;
    } else {
      assert (a + b)[0] == a[0] && (a + b)[1..] == a[1..] + b;
      CountConcat(a[1..], b, c);
    }
  }

  lemma {:induction false} CountRepeat(c: char, n: nat, d: char)
    ensures Count(Repeat(c, n), d) == if c == d then n else 0
    decreases n
  {
    if n > 0 {
      assert Repeat(c, n)[1..] == Repeat(c, n - 1);
      CountRepeat(c, n - 1, d);
    }
  }

  /** A sample token format: the id and the issue time written in unary after a marker. */
  function SampleSign(id: UserId, issuedAt: Time): string
  {
    "j" + Repeat('i', id) + Repeat('t', issuedAt)
  }

  /** Its verifier: read id and issue time back, and refuse once seven days have passed. */
  function SampleVerify(token: string, now: Time): Option<UserId>
  {
    var id := Count(token, 'i');
    var issuedAt := Count(token, 't');
    if token == SampleSign(id, issuedAt) && Unexpired(issuedAt, now) then Some(id) else None
  }

  lemma SampleSignDecodes(id: UserId, issuedAt: Time)
    ensures Count(SampleSign(id, issuedAt), 'i') == id && Count(SampleSign(id, issuedAt), 't') == issuedAt
  {
    var a, b, c := "j", Repeat('i', id), Repeat('t', issuedAt);
    CountConcat(a + b, c, 'i');
    CountConcat(a, b, 'i');
    CountConcat(a + b, c, 't');
    CountConcat(a, b, 't');
    CountRepeat('i', id, 'i');
    CountRepeat('i', id, 't');
    CountRepeat('t', issuedAt, 'i');
    CountRepeat('t', issuedAt, 't');
  }

  /**
   * `TokensSound` does not rule out expiry: a verifier that refuses every
   * token seven days after its issue time, and every string it did not
   * issue, meets it.
   */
  lemma ExpiringVerifierIsSound(nodeEnv: Option<string>, kdf: (string, nat, Salt) -> string)
    ensures TokensSound(Env(nodeEnv, kdf, (id: UserId, t: Time) => SampleSign(id, t), (s: string, now: Time) => SampleVerify(s, now)))
  {
    var env := Env(nodeEnv, kdf, (id: UserId, t: Time) => SampleSign(id, t), (s: string, now: Time) => SampleVerify(s, now));
    forall id: UserId, t: Time ensures env.sign(id, t) != "" && ' ' !in env.sign(id, t) {
      assert env.sign(id, t)[0] == 'j';
    }
    forall id: UserId, t: Time, now: Time
      ensures env.verify(env.sign(id, t), now) == (if Unexpired(t, now) then Some(id) else None)
    {
      SampleSignDecodes(id, t);
    }
    forall s: string, now: Time | env.verify(s, now).Some?
      ensures exists t: Time :: s == env.sign(env.verify(s, now).value, t) && Unexpired(t, now)
    {
      var t := Count(s, 't');
      assert s == env.sign(env.verify(s, now).value, t) && Unexpired(t, now);
    }
  }
}
