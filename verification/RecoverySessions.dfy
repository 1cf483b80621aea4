/** The authorization state of Recovery's local provisioning session. */
module RecoverySessions {
  import opened Text
  import Decimal

  type byte = x: nat | x < 256
  type Token = seq<byte>

  const U64_LIMIT := 0x1_0000_0000_0000_0000

  datatype AuthFailure = Unauthorized | Replay | Expired

  datatype AuthResult = Accepted(nonce: nat) | Refused(failure: AuthFailure)

  // ----- Comparing without an early exit -----

  /** Bitwise exclusive or. */
  function BitXor(a: nat, b: nat): nat {
    if a == 0 && b == 0 then 0
    else (if a % 2 == b % 2 then 0 else 1) + 2 * BitXor(a / 2, b / 2)
  }

  /** Bitwise or. */
  function BitOr(a: nat, b: nat): nat {
    if a == 0 && b == 0 then 0
    else (if a % 2 == 0 && b % 2 == 0 then 0 else 1) + 2 * BitOr(a / 2, b / 2)
  }

  lemma {:induction false} XorIsZero(a: nat, b: nat)
    ensures BitXor(a, b) == 0 <==> a == b
  {
    if a != 0 || b != 0 {
      XorIsZero(a / 2, b / 2);
    }
  }

  lemma {:induction false} OrIsZero(a: nat, b: nat)
    ensures BitOr(a, b) == 0 <==> a == 0 && b == 0
  {
    if a != 0 || b != 0 {
      OrIsZero(a / 2, b / 2);
    }
  }

  /** `constant_time_eq`: true exactly on equal byte strings, of whatever lengths. */
  method ConstantTimeEq(expected: Token, supplied: Token) returns (equal: bool)
    ensures equal <==> expected == supplied
  {
    hide BitXor, BitOr;
    var difference := BitXor(|expected|, |supplied|);
    XorIsZero(|expected|, |supplied|);
    for index := 0 to |expected|
      invariant difference == 0 ==>
                  |expected| == |supplied| && forall k :: 0 <= k < index ==> expected[k] == supplied[k]
      invariant expected == supplied ==> difference == 0
    {
      var mixed := BitXor(expected[index], if index < |supplied| then supplied[index] else 0);
      XorIsZero(expected[index], if index < |supplied| then supplied[index] else 0);
      OrIsZero(difference, mixed);
      difference := BitOr(difference, mixed);
    }
    equal := difference == 0;
  }

  // ----- The session -----

  class RecoverySession {
    var token: Token
    const expiresAt: nat
    var lastNonce: nat
    var active: bool

    ghost function Abstract(): Snapshot
      reads this
    {
      Snapshot(token, expiresAt, lastNonce, active)
    }

    constructor (token: Token, now: nat, ttl: nat)
      ensures this.token == token && lastNonce == 0 && active
      ensures expiresAt == if now + ttl < U64_LIMIT then now + ttl else U64_LIMIT - 1
    {
      this.token := token;
      expiresAt := if now + ttl < U64_LIMIT then now + ttl else U64_LIMIT - 1;
      lastNonce := 0;
      active := true;
    }

    /** `authorize`. A refusal says that the session is over, or that the nonce was
        used, and everything else that can be wrong is the same refusal. */
    method Authorize(suppliedToken: Option<Token>, suppliedNonce: Option<string>, now: nat) returns (r: AuthResult)
      modifies this
      ensures !old(active) || now >= expiresAt <==> r == Refused(Expired)
      ensures active == (old(active) && now < expiresAt)
      ensures r.Accepted? <==>
                && old(active) && now < expiresAt
                && suppliedToken == Some(old(token))
                && suppliedNonce.Some? && Decimal.Parse(suppliedNonce.value, U64_LIMIT).Some?
                && Decimal.Parse(suppliedNonce.value, U64_LIMIT).value > old(lastNonce)
      ensures r == Refused(Replay) <==>
                && old(active) && now < expiresAt
                && suppliedToken == Some(old(token))
                && suppliedNonce.Some? && Decimal.Parse(suppliedNonce.value, U64_LIMIT).Some?
                && 0 < Decimal.Parse(suppliedNonce.value, U64_LIMIT).value <= old(lastNonce)
      ensures r.Accepted? ==> Decimal.Parse(suppliedNonce.value, U64_LIMIT) == Some(r.nonce) && lastNonce == r.nonce
      ensures !r.Accepted? ==> lastNonce == old(lastNonce)
      ensures token == if active then old(token) else []
    {
      if !active || now >= expiresAt {
        active := false;
        token := [];
        return Refused(Expired);
      }
      if suppliedToken.None? {
        return Refused(Unauthorized);
      }
      var equal := ConstantTimeEq(token, suppliedToken.value);
      if !equal {
        return Refused(Unauthorized);
      }
      if suppliedNonce.None? {
        return Refused(Unauthorized);
      }
      var nonce := Decimal.Parse(suppliedNonce.value, U64_LIMIT);
      if nonce.None? || nonce.value == 0 {
        return Refused(Unauthorized);
      }
      if nonce.value <= lastNonce {
        return Refused(Replay);
      }
      lastNonce := nonce.value;
      return Accepted(nonce.value);
    }

    method Expire()
      modifies this
      ensures !active && token == [] && lastNonce == old(lastNonce)
    {
      active := false;
      token := [];
    }

    method NextNonce() returns (nonce: nat)
      ensures nonce < U64_LIMIT
      ensures lastNonce + 1 < U64_LIMIT ==> nonce - 1 <= lastNonce < nonce
      ensures lastNonce + 1 >= U64_LIMIT ==> nonce <= lastNonce
    {
      nonce := if lastNonce + 1 < U64_LIMIT then lastNonce + 1 else U64_LIMIT - 1;
    }
  }

  datatype Call =
    | Authorization(token: Option<Token>, nonce: Option<string>, now: nat)
    | Expiry

  datatype Answer = Granted(nonce: nat) | Denied(failure: AuthFailure) | Closed

  /** What a session remembers. */
  datatype Snapshot = Snapshot(token: Token, expiresAt: nat, lastNonce: nat, active: bool)

  function NonceOf(text: Option<string>): Option<nat> {
    match text
    case None => None
    case Some(digits) => Decimal.Parse(digits, U64_LIMIT)
  }

  /** One call on a session. */
  function StepSession(s: Snapshot, call: Call): (Snapshot, Answer) {
    match call
    case Expiry => (s.(token := [], active := false), Closed)
    case Authorization(token, nonce, now) =>
      if !s.active || now >= s.expiresAt then (s.(token := [], active := false), Denied(Expired))
      else if token != Some(s.token) then (s, Denied(Unauthorized))
      else
        match NonceOf(nonce)
        case None => (s, Denied(Unauthorized))
        case Some(n) =>
          if n == 0 then (s, Denied(Unauthorized))
          else if n <= s.lastNonce then (s, Denied(Replay))
          else (s.(lastNonce := n), Granted(n))
  }

  function RunSession(s: Snapshot, calls: seq<Call>): (r: (Snapshot, seq<Answer>))
    ensures |r.1| == |calls|
  {
    if calls == [] then (s, [])
    else
      var n := |calls| - 1;
      var (before, answers) := RunSession(s, calls[..n]);
      var (after, answer) := StepSession(before, calls[n]);
      (after, answers + [answer])
  }

  /** A call after which nothing may be accepted any more. */
  predicate Ends(call: Call, expiresAt: nat) {
    call.Expiry? || call.now >= expiresAt
  }

  /** No call up to the first `n` of them ended the session. */
  ghost predicate Lasts(calls: seq<Call>, expiresAt: nat, n: nat) {
    forall k :: 0 <= k < n && k < |calls| ==> !Ends(calls[k], expiresAt)
  }

  /** Nonce `n` is larger than the one the session began with and all those granted before call `i`. */
  ghost predicate Fresh(n: nat, s: Snapshot, answers: seq<Answer>, i: nat) {
    n > s.lastNonce && forall k :: 0 <= k < i && k < |answers| && answers[k].Granted? ==> answers[k].nonce < n
  }

  lemma FreshOneMore(n: nat, s: Snapshot, answers: seq<Answer>, answer: Answer)
    ensures Fresh(n, s, answers + [answer], |answers| + 1) <==>
              Fresh(n, s, answers, |answers|) && (answer.Granted? ==> answer.nonce < n)
    ensures forall i: nat :: i <= |answers| ==> (Fresh(n, s, answers + [answer], i) <==> Fresh(n, s, answers, i))
  {
    var now := answers + [answer];
    assert now[|answers|] == answer && forall k :: 0 <= k < |answers| ==> now[k] == answers[k];
  }

  /** Where a session stands after its calls. */
  lemma {:induction false} SessionAfter(s: Snapshot, calls: seq<Call>)
    requires s.active
    ensures var (after, answers) := RunSession(s, calls);
            && after.expiresAt == s.expiresAt
            && (after.active <==> Lasts(calls, s.expiresAt, |calls|))
            && (after.active ==> after.token == s.token)
            && (forall n: nat :: n > after.lastNonce <==> Fresh(n, s, answers, |calls|))
    decreases |calls|
  {
    if calls != [] {
      var m := |calls| - 1;
      SessionAfter(s, calls[..m]);
      var (before, answers) := RunSession(s, calls[..m]);
      var (after, answer) := StepSession(before, calls[m]);
      var now := answers + [answer];
      assert Lasts(calls, s.expiresAt, |calls|) <==> Lasts(calls[..m], s.expiresAt, m) && !Ends(calls[m], s.expiresAt);
      forall n: nat
        ensures n > after.lastNonce <==> Fresh(n, s, now, |calls|)
      {
        FreshOneMore(n, s, answers, answer);
        assert n > before.lastNonce <==> Fresh(n, s, answers, m);
        if answer.Granted? {
          assert after.lastNonce == answer.nonce && before.lastNonce < answer.nonce;
        }
      }
    }
  }

  /** Any sequence of calls at any clock readings: call `i` is granted exactly when it
      is an authorization with the right token and a nonce larger than all granted
      before, and no call so far, itself included, expired the session or saw it
      expired. So granted nonces strictly increase, and a clock that goes back helps nobody. */
  lemma {:induction false} GrantedExactly(s: Snapshot, calls: seq<Call>, i: nat)
    requires s.active && i < |calls|
    ensures var answers := RunSession(s, calls).1;
            answers[i].Granted? <==>
              && calls[i].Authorization? && calls[i].token == Some(s.token)
              && Lasts(calls, s.expiresAt, i + 1)
              && NonceOf(calls[i].nonce).Some? && Fresh(NonceOf(calls[i].nonce).value, s, answers, i)
    ensures var answers := RunSession(s, calls).1;
            answers[i].Granted? ==> NonceOf(calls[i].nonce) == Some(answers[i].nonce)
    decreases |calls|
  {
    var n := |calls| - 1;
    var (before, earlier) := RunSession(s, calls[..n]);
    var answers := RunSession(s, calls).1;
    assert answers == earlier + [answers[n]];
    forall m: nat
      ensures Fresh(m, s, answers, i) <==> Fresh(m, s, earlier, i)
    {
      FreshOneMore(m, s, earlier, answers[n]);
    }
    if i < n {
      GrantedExactly(s, calls[..n], i);
      assert calls[..n][i] == calls[i];
      assert Lasts(calls[..n], s.expiresAt, i + 1) <==> Lasts(calls, s.expiresAt, i + 1);
    } else {
      SessionAfter(s, calls[..n]);
      assert Lasts(calls, s.expiresAt, n + 1) <==> Lasts(calls[..n], s.expiresAt, n) && !Ends(calls[n], s.expiresAt);
    }
  }

  /** Granted nonces strictly increase, and nothing is granted after a call that ends the session. */
  lemma GrantedInOrder(s: Snapshot, calls: seq<Call>, i: nat, j: nat)
    requires s.active && i < j < |calls|
    requires RunSession(s, calls).1[j].Granted?
    ensures !Ends(calls[i], s.expiresAt)
    ensures RunSession(s, calls).1[i].Granted? ==> RunSession(s, calls).1[i].nonce < RunSession(s, calls).1[j].nonce
  {
    hide RunSession;
    GrantedExactly(s, calls, j);
  }

  /** Any sequence of calls on a session: the answers are those of `RunSession`. */
  method SessionRun(session: RecoverySession, calls: seq<Call>) returns (answers: seq<Answer>)
    modifies session
    ensures (session.Abstract(), answers) == RunSession(old(session.Abstract()), calls)
  {
    answers := [];
    ghost var s := session.Abstract();
    for i := 0 to |calls|
      invariant (session.Abstract(), answers) == RunSession(s, calls[..i])
    {
      assert calls[..i + 1][..i] == calls[..i];
      ghost var before, earlier := session.Abstract(), answers;
      match calls[i] {
        case Expiry =>
          session.Expire();
          answers := answers + [Closed];
        case Authorization(token, nonce, now) =>
          var r := session.Authorize(token, nonce, now);
          assert r.Accepted? || r.failure.Expired? || r.failure.Replay? || r.failure.Unauthorized?;
          answers := answers + [if r.Accepted? then Granted(r.nonce) else Denied(r.failure)];
      }
      assert answers == earlier + [answers[i]];
      assert (session.Abstract(), answers[i]) == StepSession(before, calls[i]);
    }
    assert calls[..|calls|] == calls;
  }
}
