/** What uploads guarantee: stored blobs always hash to their digest, and in runs whose bodies arrive whole a
    session holds exactly the bodies of its accepted steps, in order, with the issued offset at its end. */
module UploadLaws {
  import opened Types
  import opened Uploads

  function Run(h: Hash, ops: seq<Request>): Repo {
    if ops == [] then Repo(map[], map[]) else Step(h, Run(h, ops[..|ops| - 1]), ops[|ops| - 1]).0
  }

  /* ---------- Content addressing ---------- */

  /** The writer of a session has hashed exactly its buffer, under the session's algorithm. */
  predicate SessionSound(s: Session) {
    s.w.alg == s.alg && s.w.hashed == s.buffer
  }

  ghost predicate Sound(h: Hash, r: Repo) {
    && (forall id | id in r.sessions :: SessionSound(r.sessions[id]))
    && (forall d | d in r.blobs :: h(d.algorithm, r.blobs[d]) == d.encoded)
  }

  lemma PutStepSound(h: Hash, s: Session, cr: Range, digest: Option<Digest>, state: Option<int>, body: Body)
    requires SessionSound(s)
    ensures match PutStep(h, s, cr, digest, state, body)
            case Stays(n) => SessionSound(n)
            case Dropped => true
            case Stored(d, content) =>
              && digest == Some(d) && state == Some(|s.buffer|)
              && content == s.buffer + body.bytes
              && h(d.algorithm, content) == d.encoded
              && (s.wanted.Some? ==> d == s.wanted.value)
  {
  }

  /** In every run, whatever bodies break and however algorithms change, each stored blob hashes to its digest. */
  lemma {:induction false} RunSound(h: Hash, ops: seq<Request>)
    ensures Sound(h, Run(h, ops))
  {
    if ops != [] {
      RunSound(h, ops[..|ops| - 1]);
      var r := Run(h, ops[..|ops| - 1]);
      match ops[|ops| - 1]
      case Post(_, _, _) =>
      case Status(_) =>
      case Patch(_, _, _, _) =>
      case Put(id, cr, digest, state, body) =>
        if id in r.sessions {
          PutStepSound(h, r.sessions[id], cr, digest, state, body);
        }
      case Cancel(_) =>
      case Expire(_) =>
    }
  }

  /* ---------- What a session holds ---------- */

  /** The checks a PUT makes before it copies its body. */
  predicate PutAdmitted(s: Session, cr: Range, digest: Option<Digest>, state: Option<int>) {
    PatchAdmitted(s, cr, state) && digest.Some?
  }

  /** For each session, in order: the bytes of every admitted step, the bodies of the accepted steps, and the last
      offset issued. */
  datatype Log = Log(held: map<string, Bytes>, accepted: map<string, Bytes>, issued: map<string, int>)

  function BytesOf(m: map<string, Bytes>, id: string): Bytes {
    if id in m then m[id] else []
  }

  function NextHeld(r: Repo, held: map<string, Bytes>, q: Request, outcome: Outcome): map<string, Bytes> {
    match q
    case Post(id, _, _) => if outcome.Accepted? then held[id := []] else held
    case Patch(id, cr, state, body) =>
      if id in r.sessions && PatchAdmitted(r.sessions[id], cr, state)
      then held[id := BytesOf(held, id) + body.bytes] else held
    case Put(id, cr, digest, state, body) =>
      if id in r.sessions && PutAdmitted(r.sessions[id], cr, digest, state)
      then held[id := BytesOf(held, id) + body.bytes] else held
    case _ => held
  }

  function NextLog(r: Repo, log: Log, q: Request, outcome: Outcome): Log {
    var held := NextHeld(r, log.held, q, outcome);
    match (q, outcome)
    case (Post(id, _, _), Accepted(o)) => Log(held, log.accepted[id := []], log.issued[id := o])
    case (Status(id), Accepted(o)) => Log(held, log.accepted, log.issued[id := o])
    case (Patch(id, _, _, body), Accepted(o)) =>
      Log(held, log.accepted[id := BytesOf(log.accepted, id) + body.bytes], log.issued[id := o])
    case _ => log.(held := held)
  }

  function RunLog(h: Hash, ops: seq<Request>): Log {
    if ops == [] then Log(map[], map[], map[])
    else
      var init := ops[..|ops| - 1];
      var r := Run(h, init);
      NextLog(r, RunLog(h, init), ops[|ops| - 1], Step(h, r, ops[|ops| - 1]).1)
  }

  /** Every open session holds the bytes of its admitted steps. */
  ghost predicate Held(r: Repo, held: map<string, Bytes>) {
    forall id | id in r.sessions :: id in held && held[id] == r.sessions[id].buffer
  }

  lemma HeldStep(h: Hash, r: Repo, held: map<string, Bytes>, q: Request)
    requires Held(r, held)
    ensures Held(Step(h, r, q).0, NextHeld(r, held, q, Step(h, r, q).1))
  {
    match q
    case Put(id, cr, digest, state, body) =>
      if id in r.sessions {
        PutHeld(h, r.sessions[id], cr, digest, state, body);
      }
    case _ =>
  }

  lemma PutHeld(h: Hash, s: Session, cr: Range, digest: Option<Digest>, state: Option<int>, body: Body)
    ensures PutStep(h, s, cr, digest, state, body).Stays? ==>
              PutStep(h, s, cr, digest, state, body).session.buffer ==
              if PutAdmitted(s, cr, digest, state) then s.buffer + body.bytes else s.buffer
  {
  }

  /** In every run, whatever bodies break, each open session holds the bytes of its admitted steps, in order. */
  lemma {:induction false} RunHeld(h: Hash, ops: seq<Request>)
    ensures Held(Run(h, ops), RunLog(h, ops).held)
  {
    if ops != [] {
      var init := ops[..|ops| - 1];
      RunHeld(h, init);
      HeldStep(h, Run(h, init), RunLog(h, init).held, ops[|ops| - 1]);
    }
  }

  /** A rejected PATCH adds bytes exactly when it was admitted and its body broke after some bytes. */
  lemma RejectedPatchAdds(s: Session, cr: Range, state: Option<int>, body: Body)
    requires PatchStep(s, cr, state, body).1 == Rejected
    ensures PatchStep(s, cr, state, body).0.buffer != s.buffer <==>
            PatchAdmitted(s, cr, state) && body.broken && body.bytes != []
  {
    assert |s.buffer + body.bytes| == |s.buffer| + |body.bytes|;
  }

  /** A rejected PUT that keeps its session adds bytes exactly when it was admitted with some bytes and either
      its body broke, or its digest matched the content but not the digest the session was opened for. */
  lemma RejectedPutAdds(h: Hash, s: Session, cr: Range, digest: Option<Digest>, state: Option<int>, body: Body)
    requires SessionSound(s) && PutStep(h, s, cr, digest, state, body).Stays?
    ensures PutStep(h, s, cr, digest, state, body).session.buffer != s.buffer <==>
            && PutAdmitted(s, cr, digest, state) && body.bytes != []
            && (body.broken || (s.wanted.Some? && s.wanted != digest))
  {
    assert |s.buffer + body.bytes| == |s.buffer| + |body.bytes|;
  }

  /* ---------- Runs whose bodies arrive whole ---------- */

  /** The body arrives whole, and a PUT does not name a digest other than the one the session was opened for. */
  predicate Clean(r: Repo, q: Request) {
    match q
    case Patch(_, _, _, body) => !body.broken
    case Put(id, _, digest, _, body) =>
      && !body.broken
      && (id in r.sessions && r.sessions[id].wanted.Some? && digest.Some? ==> r.sessions[id].wanted == digest)
    case _ => true
  }

  ghost predicate CleanRun(h: Hash, ops: seq<Request>) {
    forall i | 0 <= i < |ops| :: Clean(Run(h, ops[..i]), ops[i])
  }

  /** The accepted bodies are all that is held, and the last issued offset is its length. */
  ghost predicate Logged(r: Repo, log: Log) {
    forall id | id in r.sessions ::
      && id in log.accepted && log.accepted[id] == r.sessions[id].buffer
      && id in log.issued && log.issued[id] == |r.sessions[id].buffer|
  }

  lemma StepLogged(h: Hash, r: Repo, log: Log, q: Request)
    requires Sound(h, r) && Logged(r, log) && Clean(r, q)
    ensures Logged(Step(h, r, q).0, NextLog(r, log, q, Step(h, r, q).1))
  {
    match q
    case Patch(id, cr, state, body) =>
      if id in r.sessions && !PatchAdmitted(r.sessions[id], cr, state) {
        RejectedPatchAdds(r.sessions[id], cr, state, body);
      }
    case Put(id, cr, digest, state, body) =>
      if id in r.sessions && PutStep(h, r.sessions[id], cr, digest, state, body).Stays? {
        RejectedPutAdds(h, r.sessions[id], cr, digest, state, body);
      }
    case _ =>
  }

  /** After every clean run each open session holds the concatenation of the bodies of its accepted steps, and
      the last offset issued for it is its length. */
  lemma {:induction false} RunLogged(h: Hash, ops: seq<Request>)
    requires CleanRun(h, ops)
    ensures Logged(Run(h, ops), RunLog(h, ops))
  {
    if ops != [] {
      var init := ops[..|ops| - 1];
      forall i | 0 <= i < |init| ensures Clean(Run(h, init[..i]), init[i]) {
        assert init[..i] == ops[..i] && init[i] == ops[i];
      }
      assert ops[..|ops| - 1] == init;
      RunLogged(h, init);
      RunSound(h, init);
      StepLogged(h, Run(h, init), RunLog(h, init), ops[|ops| - 1]);
    }
  }

  /* ---------- The end of a session ---------- */

  /** In every run, the content of a blob created by a PUT is what its session held plus the last body, and it is
      stored under the requested digest, which is its hash; the session ends. */
  lemma CreatedContent(h: Hash, ops: seq<Request>, q: Request, d: Digest)
    requires q.Put?
    requires Step(h, Run(h, ops), q).1 == Created(d)
    ensures var n := Step(h, Run(h, ops), q).0;
            && q.digest == Some(d) && d in n.blobs && q.id !in n.sessions
            && q.id in RunLog(h, ops).held
            && n.blobs[d] == RunLog(h, ops).held[q.id] + q.body.bytes
            && h(d.algorithm, n.blobs[d]) == d.encoded
  {
    RunHeld(h, ops);
    RunSound(h, ops);
    PutStepSound(h, Run(h, ops).sessions[q.id], q.cr, q.digest, q.state, q.body);
  }

  /** In every run, a PATCH with a whole body, an offset, and no range or a range from there is accepted if and only
      if the session holds exactly that many bytes; otherwise it is rejected. So an issued offset stays good until
      bytes are added behind the client's back. */
  lemma OffsetAccepted(h: Hash, ops: seq<Request>, id: string, o: int, body: Body, cr: Range)
    requires id in Run(h, ops).sessions && !body.broken
    requires cr == Absent || cr == From(o)
    ensures id in RunLog(h, ops).held
    ensures Step(h, Run(h, ops), Patch(id, cr, Some(o), body)).1 ==
            if o == |RunLog(h, ops).held[id]| then Accepted(o + |body.bytes|) else Rejected
  {
    RunHeld(h, ops);
  }

  /** In a clean run the last issued offset is accepted. */
  lemma IssuedOffsetAccepted(h: Hash, ops: seq<Request>, id: string, o: int, body: Body, cr: Range)
    requires CleanRun(h, ops) && id in Run(h, ops).sessions && !body.broken
    requires id in RunLog(h, ops).issued && RunLog(h, ops).issued[id] == o
    requires cr == Absent || cr == From(o)
    ensures Step(h, Run(h, ops), Patch(id, cr, Some(o), body)).1 == Accepted(o + |body.bytes|)
  {
    RunLogged(h, ops);
  }

  /* ---------- The outcome of every request ---------- */

  /** The range is absent or starts at the held length, and the state is that length. */
  predicate AtEnd(held: Bytes, cr: Range, state: Option<int>) {
    (cr == Absent || cr == From(|held|)) && state == Some(|held|)
  }

  /** In every run: a PATCH adds its bytes if it comes at the end of what is held, and is accepted if they also
      arrive whole, with the new length as the next offset. */
  lemma PatchOutcome(h: Hash, ops: seq<Request>, id: string, cr: Range, state: Option<int>, body: Body)
    requires id in Run(h, ops).sessions
    ensures id in RunLog(h, ops).held
    ensures var held := RunLog(h, ops).held[id];
            var (n, outcome) := Step(h, Run(h, ops), Patch(id, cr, state, body));
            && outcome == (if AtEnd(held, cr, state) && !body.broken then Accepted(|held| + |body.bytes|) else Rejected)
            && id in n.sessions && n.blobs == Run(h, ops).blobs
            && n.sessions[id].buffer == if AtEnd(held, cr, state) then held + body.bytes else held
  {
    RunHeld(h, ops);
  }

  lemma VerifiesIff(h: Hash, s: Session, d: Digest)
    requires SessionSound(s)
    ensures Verifies(h, s, d) <==> h(d.algorithm, s.buffer) == d.encoded
    ensures AfterVerify(h, s, d).buffer == s.buffer && AfterVerify(h, s, d).wanted == s.wanted
    ensures Verifies(h, s, d) ==> DigestOf(h, AfterVerify(h, s, d).w) == d
  {
  }

  lemma PutStepOutcome(h: Hash, s: Session, cr: Range, d: Digest, state: Option<int>, body: Body)
    requires SessionSound(s)
    ensures var content := s.buffer + body.bytes;
            match PutStep(h, s, cr, Some(d), state, body)
            case Stored(e, c) =>
              && AtEnd(s.buffer, cr, state) && !body.broken && h(d.algorithm, content) == d.encoded
              && (s.wanted.None? || s.wanted == Some(d)) && e == d && c == content
            case Dropped =>
              AtEnd(s.buffer, cr, state) && !body.broken && h(d.algorithm, content) != d.encoded
            case Stays(n) =>
              if AtEnd(s.buffer, cr, state) then
                && n.buffer == content
                && (body.broken || (h(d.algorithm, content) == d.encoded && s.wanted.Some? && s.wanted != Some(d)))
              else n.buffer == s.buffer
  {
    if AtEnd(s.buffer, cr, state) {
      var n := AfterWrite(PutPrepared(s, d), body.bytes);
      VerifiesIff(h, n, d);
    }
  }

  /** In every run: a PUT on an open session creates its blob if and only if it names a digest, comes at the end of
      what is held, its body arrives whole, the digest is the hash of everything, and it is the digest the session
      was opened for, if any. A wrong hash ends the session; every other failure keeps it, with the bytes added if
      the PUT came at the end. */
  lemma PutOutcome(
      h: Hash, ops: seq<Request>, id: string, cr: Range, digest: Option<Digest>, state: Option<int>, body: Body)
    requires id in Run(h, ops).sessions
    ensures id in RunLog(h, ops).held
    ensures var r := Run(h, ops);
            var held := RunLog(h, ops).held[id];
            var content := held + body.bytes;
            var (n, outcome) := Step(h, r, Put(id, cr, digest, state, body));
            if digest.None? || !AtEnd(held, cr, state) then
              outcome == Rejected && n.blobs == r.blobs && id in n.sessions && n.sessions[id].buffer == held
            else if body.broken then
              outcome == Rejected && n.blobs == r.blobs && id in n.sessions && n.sessions[id].buffer == content
            else if h(digest.value.algorithm, content) != digest.value.encoded then
              outcome == Rejected && n.blobs == r.blobs && id !in n.sessions
            else if r.sessions[id].wanted.Some? && r.sessions[id].wanted != digest then
              outcome == Rejected && n.blobs == r.blobs && id in n.sessions && n.sessions[id].buffer == content
            else
              outcome == Created(digest.value) && n.blobs == r.blobs[digest.value := content] && id !in n.sessions
  {
    RunHeld(h, ops);
    RunSound(h, ops);
    if digest.Some? {
      PutStepOutcome(h, Run(h, ops).sessions[id], cr, digest.value, state, body);
    }
  }

  /** A POST opens an empty session for the digest it expects, unless that blob is already there. */
  lemma PostOutcome(h: Hash, r: Repo, id: string, alg: Algorithm, wanted: Option<Digest>)
    ensures var (n, outcome) := Step(h, r, Post(id, alg, wanted));
            if wanted.Some? && wanted.value in r.blobs then n == r && outcome == Created(wanted.value)
            else if id in r.sessions then n == r && outcome == Rejected
            else
              && outcome == Accepted(0) && n.blobs == r.blobs && id in n.sessions
              && n.sessions[id].buffer == [] && n.sessions[id].wanted == wanted
              && n.sessions[id].alg == (if wanted.Some? then wanted.value.algorithm else alg)
  {
  }

  /** A request touches its own session only, an open session keeps the digest it was opened for, blobs change only
      when one is created by a PUT, and a request on an unknown session changes nothing. */
  lemma Untouched(h: Hash, r: Repo, q: Request)
    ensures var (n, outcome) := Step(h, r, q);
            && (forall id | id != q.id :: (id in n.sessions <==> id in r.sessions) &&
                                          (id in r.sessions ==> n.sessions[id] == r.sessions[id]))
            && (q.id in r.sessions && q.id in n.sessions ==> n.sessions[q.id].wanted == r.sessions[q.id].wanted)
            && (n.blobs != r.blobs ==> q.Put? && outcome.Created?)
            && (q.id !in r.sessions && !q.Post? ==> n.blobs == r.blobs && n.sessions == r.sessions)
            && (q.Cancel? || q.Expire? ==> q.id !in n.sessions)
            && (q.Status? ==> n == r)
            && (q.Status? ==>
                  outcome == if q.id in r.sessions then Accepted(|r.sessions[q.id].buffer|) else Rejected)
  {
  }
}
