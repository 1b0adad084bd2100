/**
 The prompt-auth client over one connection. Every exchange with the daemon is a
 parameter: whether a deadline or a send fails, and what comes back. `requests` is
 everything handed to the connection, in order.
 */
module PromptClient {
  import opened Wrappers

  const TOKEN_BYTES: nat := 32
  const NONCE_BYTES: nat := 32
  const PROTOCOL_VERSION: nat := 1
  const IDENTITY_MAX_BYTES: nat := 64
  const PROMPT_TIMEOUT_MIN: nat := 1_000
  const PROMPT_TIMEOUT_MAX: nat := 300_000
  const COMMIT_TIMEOUT_MIN: nat := 1_000
  const COMMIT_TIMEOUT_MAX: nat := 120_000
  const INCOMPATIBLE: string := "prompt_protocol_incompatible"

  type Octets = seq<bv8>

  datatype Origin = Unspecified | Local | Remote | UnknownOrigin

  datatype Policy = Policy(service: string, origin: Origin)

  datatype BeginRequest = BeginRequest(version: nat, username: string, nonce: Octets, policy: Option<Policy>)

  datatype Request =
    | Begin(begin: BeginRequest)
    | Commit(token: Octets, nonce: Octets)
    | Cancel(token: Octets, nonce: Octets)

  datatype Response =
    | PromptRequired(version: nat, token: Octets, nonce: Octets, promptTimeout: nat, commitTimeout: nat)
    | Cancelled(version: nat, nonce: Octets)
    | Success
    | AuthFailed
    | Error(code: string)
    | Other

  /** One exchange: the deadline could be computed, it had not expired before the send, the send
      succeeded, and the reply, if one arrived in time. */
  datatype Exchange = Exchange(deadline: bool, unexpired: bool, sent: bool, reply: Option<Response>)

  datatype Metadata = Metadata(promptTimeout: nat, commitTimeout: nat)

  datatype BeginOutcome = PromptShown(metadata: Metadata) | PromptModeOff

  datatype Phase = Initial | Pending | Finished

  datatype PendingPrompt = PendingPrompt(token: Octets, nonce: Octets, commitTimeout: nat)

  type Reply<T> = Result<T, ()>

  // ----- validators -----

  predicate IdentityChar(c: char) {
    'a' <= c <= 'z' || 'A' <= c <= 'Z' || '0' <= c <= '9' || c == '.' || c == '_' || c == '-'
  }

  predicate ValidIdentity(s: string) {
    1 <= |s| <= IDENTITY_MAX_BYTES && forall i :: 0 <= i < |s| ==> IdentityChar(s[i])
  }

  predicate ValidBegin(b: BeginRequest) {
    && b.version == PROTOCOL_VERSION
    && ValidIdentity(b.username)
    && |b.nonce| == NONCE_BYTES
    && b.policy.Some?
    && ValidIdentity(b.policy.value.service)
    && (b.policy.value.origin.Local? || b.policy.value.origin.Remote?)
  }

  predicate ValidPrompt(r: Response) {
    && r.PromptRequired?
    && r.version == PROTOCOL_VERSION
    && |r.token| == TOKEN_BYTES
    && |r.nonce| == NONCE_BYTES
    && PROMPT_TIMEOUT_MIN <= r.promptTimeout <= PROMPT_TIMEOUT_MAX
    && COMMIT_TIMEOUT_MIN <= r.commitTimeout <= COMMIT_TIMEOUT_MAX
  }

  predicate Terminal(r: Response) { r.Success? || r.AuthFailed? || r.Error? }

  /** Accumulates every byte difference, with no early exit after the length check. */
  method ConstantTimeEqual(left: Octets, right: Octets) returns (equal: bool)
    ensures equal <==> left == right
  {
    if |left| != |right| { return false; }
    var difference: bv8 := 0;
    for i := 0 to |left|
      invariant difference == 0 <==> left[..i] == right[..i]
    {
      assert left[..i + 1] == left[..i] + [left[i]] && right[..i + 1] == right[..i] + [right[i]];
      OrXorZero(difference, left[i], right[i]);
      difference := difference | (left[i] ^ right[i]);
    }
    assert left[..|left|] == left && right[..|right|] == right;
    return difference == 0;
  }

  lemma OrXorZero(d: bv8, l: bv8, r: bv8)
    ensures d | (l ^ r) == 0 <==> d == 0 && l == r
  {}

  // ----- the shape of a conversation -----

  /** Begin, then at most one Commit or Cancel, which carries the accepted prompt's token and the
      nonce that Begin sent and the prompt returned. */
  predicate WellSequenced(requests: seq<Request>, accepted: Option<Response>) {
    match |requests|
    case 0 => accepted.None?
    case 1 => requests[0].Begin? && (accepted.Some? ==> Answers(requests[0].begin, accepted.value))
    case 2 =>
      && requests[0].Begin?
      && accepted.Some? && Answers(requests[0].begin, accepted.value)
      && !requests[1].Begin?
      && requests[1].token == accepted.value.token
      && requests[1].nonce == requests[0].begin.nonce
    case _ => false
  }

  /** `prompt` is a valid answer to `b`: it echoes the nonce. */
  predicate Answers(b: BeginRequest, prompt: Response) {
    ValidBegin(b) && ValidPrompt(prompt) && prompt.nonce == b.nonce
  }

  /** A valid request was sent and something came back in time. */
  predicate Answered(b: BeginRequest, x: Exchange) { ValidBegin(b) && x.sent && x.reply.Some? }

  class PromptAuthClient {
    var open: bool
    var phase: Phase
    var pending: Option<PendingPrompt>
    var requests: seq<Request>
    ghost var accepted: Option<Response>

    ghost predicate Valid()
      reads this
    {
      && WellSequenced(requests, accepted)
      && (pending.Some? <==> phase == Pending)
      && (phase == Initial ==> requests == [] && accepted.None?)
      && (phase == Pending ==>
            && open
            && |requests| == 1 && accepted.Some?
            && pending.value ==
               PendingPrompt(accepted.value.token, requests[0].begin.nonce, accepted.value.commitTimeout))
    }

    constructor ()
      ensures Valid() && open && phase == Initial && requests == []
    {
      open, phase, pending, requests, accepted := true, Initial, None, [], None;
    }

    method BeginAdaptive(b: BeginRequest, x: Exchange) returns (r: Reply<BeginOutcome>)
      requires Valid() && open
      modifies this
      ensures Valid() && open
      ensures requests == if old(phase) == Initial && x.deadline && ValidBegin(b) then [Begin(b)] else old(requests)
      ensures phase == if old(phase) != Initial || !x.deadline then old(phase)
                       else if Answered(b, x) && Answers(b, x.reply.value) then Pending
                       else Finished
      ensures r.Ok? && r.value.PromptShown? <==> old(phase) == Initial && phase == Pending
      ensures r.Ok? && r.value.PromptModeOff? <==>
        old(phase) == Initial && x.deadline && Answered(b, x) && x.reply == Some(Error("prompt_protocol_incompatible"))
      ensures r.Ok? && r.value.PromptShown? ==>
        r.value.metadata == Metadata(x.reply.value.promptTimeout, x.reply.value.commitTimeout)
      ensures accepted == if old(phase) == Initial && phase == Pending then x.reply else old(accepted)
    {
      if !x.deadline { return Err(()); }
      if phase != Initial { return Err(()); }
      if !ValidBegin(b) {
        phase := Finished;
        return Err(());
      }
      var expectedNonce := b.nonce;
      requests := requests + [Begin(b)];
      if !x.sent || x.reply.None? {
        phase := Finished;
        return Err(());
      }
      var reply := x.reply.value;
      if reply == Error(INCOMPATIBLE) {
        phase := Finished;
        return Ok(PromptModeOff);
      }
      if !reply.PromptRequired? {
        phase := Finished;
        return Err(());
      }
      var echoed := ConstantTimeEqual(reply.nonce, expectedNonce);
      if !ValidPrompt(reply) || !echoed {
        phase := Finished;
        return Err(());
      }
      pending := Some(PendingPrompt(reply.token, expectedNonce, reply.commitTimeout));
      accepted := Some(reply);
      phase := Pending;
      return Ok(PromptShown(Metadata(reply.promptTimeout, reply.commitTimeout)));
    }

    /** Leave the pending phase; the guard is disarmed whatever happens next. */
    method TakePending() returns (r: Reply<PendingPrompt>)
      requires Valid()
      modifies this`phase, this`pending
      ensures Valid()
      ensures old(phase) != Pending ==> r.Err? && phase == old(phase)
      ensures old(phase) == Pending ==> phase == Finished && r == Ok(old(pending).value)
    {
      if phase != Pending { return Err(()); }
      phase := Finished;
      r := Ok(pending.value);
      pending := None;
    }

    method CommitPrompt(x: Exchange) returns (r: Reply<Response>)
      requires Valid() && open
      modifies this
      ensures Valid() && open && accepted == old(accepted)
      ensures old(phase) != Pending ==> r.Err? && requests == old(requests) && phase == old(phase)
      ensures old(phase) == Pending ==> phase == Finished
      ensures old(phase) == Pending ==>
        requests == if x.deadline
                    then old(requests) + [Commit(accepted.value.token, old(requests)[0].begin.nonce)]
                    else old(requests)
      ensures r.Ok? <==> old(phase) == Pending && x.deadline && x.sent && x.reply.Some? && Terminal(x.reply.value)
      ensures r.Ok? ==> r.value == x.reply.value
    {
      var prompt :- TakePending();
      if !(COMMIT_TIMEOUT_MIN <= prompt.commitTimeout <= COMMIT_TIMEOUT_MAX) || !x.deadline { return Err(()); }
      requests := requests + [Commit(prompt.token, prompt.nonce)];
      if !x.sent || x.reply.None? || !Terminal(x.reply.value) { return Err(()); }
      return Ok(x.reply.value);
    }

    method CancelPrompt(x: Exchange) returns (r: Reply<()>)
      requires Valid() && open
      modifies this
      ensures Valid() && open && accepted == old(accepted)
      ensures old(phase) != Pending ==> r.Err? && requests == old(requests) && phase == old(phase)
      ensures old(phase) == Pending ==> phase == Finished
      ensures old(phase) == Pending ==>
        requests == if x.deadline && x.unexpired
                    then old(requests) + [Cancel(accepted.value.token, old(requests)[0].begin.nonce)] else old(requests)
      ensures r.Ok? <==>
        && old(phase) == Pending && x.deadline && x.unexpired && x.sent
        && x.reply == Some(Cancelled(PROTOCOL_VERSION, old(requests)[0].begin.nonce))
    {
      var prompt :- TakePending();
      if !x.deadline || !x.unexpired { return Err(()); }
      requests := requests + [Cancel(prompt.token, prompt.nonce)];
      if !x.sent || x.reply.None? || !x.reply.value.Cancelled? { return Err(()); }
      var echoed := ConstantTimeEqual(x.reply.value.nonce, prompt.nonce);
      if x.reply.value.version != PROTOCOL_VERSION || |x.reply.value.nonce| != NONCE_BYTES || !echoed {
        return Err(());
      }
      return Ok(());
    }

    /** Give the stream back; an armed transaction is cancelled first. */
    method IntoInner(x: Exchange)
      requires Valid() && open
      modifies this
      ensures Valid() && !open && phase == Finished && accepted == old(accepted)
      ensures requests == if old(phase) == Pending && x.deadline && x.unexpired
                          then old(requests) + [Cancel(accepted.value.token, old(requests)[0].begin.nonce)]
                          else old(requests)
    {
      if pending.Some? {
        var _ := CancelPrompt(x);
      }
      phase := Finished;
      open := false;
    }

    /** The destructor: cancel a transaction that is still pending, ignore the result. */
    method Drop(x: Exchange)
      requires Valid()
      modifies this
      ensures Valid() && phase != Pending && accepted == old(accepted)
      ensures requests == if old(phase) == Pending && x.deadline && x.unexpired
                          then old(requests) + [Cancel(accepted.value.token, old(requests)[0].begin.nonce)]
                          else old(requests)
    {
      if phase != Pending || pending.None? { return; }
      var _ := CancelPrompt(x);
    }
  }

  // ----- every call sequence -----

  datatype Call = CallBegin(begin: BeginRequest, x: Exchange) | CallCommit(x: Exchange) | CallCancel(x: Exchange)

  /** Nothing keeps the concluding request of this exchange from being handed to the connection. */
  predicate Sendable(x: Exchange) { x.deadline && x.unexpired }

  predicate AllSendable(calls: seq<Call>) { forall i :: 0 <= i < |calls| ==> Sendable(calls[i].x) }

  predicate BegunBy(calls: seq<Call>, b: BeginRequest) {
    exists i :: 0 <= i < |calls| && calls[i].CallBegin? && calls[i].begin == b
  }

  /** Any calls in any order, then `into_inner` or not, then the destructor: the requests are well sequenced,
      begin with one of the callers' own, and an accepted transaction is always concluded by exactly one
      commit or cancel if requests can be sent at all. */
  method Converse(calls: seq<Call>, keepStream: bool, inner: Exchange, drop: Exchange)
    returns (requests: seq<Request>, ghost accepted: Option<Response>)
    ensures WellSequenced(requests, accepted)
    ensures requests != [] ==> requests[0].Begin? && BegunBy(calls, requests[0].begin)
    ensures accepted.Some? && AllSendable(calls) && Sendable(inner) && Sendable(drop) ==> |requests| == 2
  {
    var client := new PromptAuthClient();
    for k := 0 to |calls|
      invariant client.Valid() && client.open && fresh(client)
      invariant client.requests != [] ==> client.requests[0].Begin? && BegunBy(calls, client.requests[0].begin)
      invariant client.accepted.Some? && AllSendable(calls) ==> client.phase == Pending || |client.requests| == 2
    {
      match calls[k] {
        case CallBegin(b, x) => var _ := client.BeginAdaptive(b, x);
        case CallCommit(x) => var _ := client.CommitPrompt(x);
        case CallCancel(x) => var _ := client.CancelPrompt(x);
      }
    }
    if keepStream { client.IntoInner(inner); }
    client.Drop(drop);
    requests, accepted := client.requests, client.accepted;
  }
}
