/** Chunked blob uploads in the memory store (blob.go, internal/store/mem.go). */
module Uploads {
  import opened Types

  type Byte = bv8
  type Bytes = seq<Byte>

  /** The hash functions, one per algorithm. */
  type Hash = (Algorithm, Bytes) -> string

  /** A digest writer: the algorithm it uses and everything it hashed. */
  datatype Writer = Writer(alg: Algorithm, hashed: Bytes)

  datatype Session = Session(buffer: Bytes, alg: Algorithm, w: Writer, wanted: Option<Digest>)

  datatype Outcome =
    | Rejected
    | Accepted(offset: int)
    | Created(digest: Digest)
    | Ended

  /** A body as it arrives: the bytes that were read, and whether reading then failed. */
  datatype Body = Body(bytes: Bytes, broken: bool)

  /** The range header: absent, unusable, or starting at an offset. */
  datatype Range = Absent | Malformed | From(start: int)

  /* ---------- A session as a value ---------- */

  function DigestOf(h: Hash, w: Writer): Digest {
    Digest(w.alg, h(w.alg, w.hashed))
  }

  function NewSession(alg: Algorithm, wanted: Option<Digest>): Session {
    Session([], alg, Writer(alg, []), wanted)
  }

  function AfterWrite(s: Session, p: Bytes): Session {
    s.(buffer := s.buffer + p, w := s.w.(hashed := s.w.hashed + p))
  }

  function AfterChange(s: Session, alg: Algorithm): Session {
    if alg == s.alg || s.buffer != [] then s else s.(alg := alg, w := Writer(alg, []))
  }

  /** Verifying under another algorithm hashes the buffer again. */
  function AfterVerify(h: Hash, s: Session, d: Digest): Session {
    if DigestOf(h, s.w) == d || s.alg == d.algorithm then s
    else s.(alg := d.algorithm, w := Writer(d.algorithm, s.buffer))
  }

  function Verifies(h: Hash, s: Session, d: Digest): bool {
    DigestOf(h, AfterVerify(h, s, d).w) == d
  }

  function MayClose(h: Hash, s: Session): bool {
    s.wanted.None? || DigestOf(h, s.w) == s.wanted.value
  }

  predicate ValidRange(cr: Range, size: nat) {
    match cr
    case Absent => true
    case Malformed => false
    case From(start) => start == size
  }

  /* ---------- Requests on one repository ---------- */

  datatype Repo = Repo(blobs: map<Digest, Bytes>, sessions: map<string, Session>)

  datatype Request =
    | Post(id: string, alg: Algorithm, wanted: Option<Digest>)
    | Status(id: string)
    | Patch(id: string, cr: Range, state: Option<int>, body: Body)
    | Put(id: string, cr: Range, digest: Option<Digest>, state: Option<int>, body: Body)
    | Cancel(id: string)
    | Expire(id: string)

  /** The checks a PATCH makes before it copies its body. */
  predicate PatchAdmitted(s: Session, cr: Range, state: Option<int>) {
    ValidRange(cr, |s.buffer|) && state == Some(|s.buffer|)
  }

  /** The session a PUT works on once its digest is known: the algorithm may change while it is empty. */
  function PutPrepared(s: Session, d: Digest): Session {
    if s.buffer == [] && d.algorithm != s.w.alg then AfterChange(s, d.algorithm) else s
  }

  function PatchStep(s: Session, cr: Range, state: Option<int>, body: Body): (Session, Outcome) {
    if !PatchAdmitted(s, cr, state) then (s, Rejected)
    else
      var n := AfterWrite(s, body.bytes);
      if body.broken then (n, Rejected) else (n, Accepted(|n.buffer|))
  }

  /** What a PUT does to its session: it stays, it ends without a blob, or it ends as a stored blob. */
  datatype PutResult = Stays(session: Session) | Dropped | Stored(digest: Digest, content: Bytes)

  function PutStep(h: Hash, s: Session, cr: Range, digest: Option<Digest>, state: Option<int>, body: Body): PutResult {
    if !ValidRange(cr, |s.buffer|) || digest.None? then Stays(s)
    else
      var d := digest.value;
      var prepared := PutPrepared(s, d);
      if state != Some(|s.buffer|) then Stays(prepared)
      else
        var n := AfterWrite(prepared, body.bytes);
        if body.broken then Stays(n)
        else if !Verifies(h, n, d) then Dropped
        else
          var v := AfterVerify(h, n, d);
          if MayClose(h, v) then Stored(DigestOf(h, v.w), v.buffer) else Stays(v)
  }

  function Step(h: Hash, r: Repo, q: Request): (Repo, Outcome) {
    match q
    case Post(id, alg, wanted) =>
      if wanted.Some? && wanted.value in r.blobs then (r, Created(wanted.value))
      else if id in r.sessions then (r, Rejected)
      else
        var s := NewSession(if wanted.Some? then wanted.value.algorithm else alg, wanted);
        (r.(sessions := r.sessions[id := s]), Accepted(0))
    case Status(id) =>
      if id in r.sessions then (r, Accepted(|r.sessions[id].buffer|)) else (r, Rejected)
    case Patch(id, cr, state, body) =>
      if id !in r.sessions then (r, Rejected)
      else
        var (s, outcome) := PatchStep(r.sessions[id], cr, state, body);
        (r.(sessions := r.sessions[id := s]), outcome)
    case Put(id, cr, digest, state, body) =>
      if id !in r.sessions then (r, Rejected)
      else
        (match PutStep(h, r.sessions[id], cr, digest, state, body)
         case Stays(s) => (r.(sessions := r.sessions[id := s]), Rejected)
         case Dropped => (r.(sessions := r.sessions - {id}), Rejected)
         case Stored(d, content) => (Repo(r.blobs[d := content], r.sessions - {id}), Created(d)))
    case Cancel(id) =>
      if id in r.sessions then (r.(sessions := r.sessions - {id}), Ended) else (r, Rejected)
    case Expire(id) => (r.(sessions := r.sessions - {id}), Ended)
  }

  /* ---------- The session object and the handlers ---------- */

  /** The stored blobs and the sessions that are still open. */
  class BlobTable {
    var blobs: map<Digest, Bytes>
    var open: set<string>

    constructor ()
      ensures blobs == map[] && open == {}
    {
      blobs, open := map[], {};
    }
  }

  class MemRepoUpload {
    const h: Hash
    const sessionID: string
    const wanted: Option<Digest>
    const table: BlobTable
    var buffer: Bytes
    var alg: Algorithm
    var w: Writer

    constructor (h: Hash, sessionID: string, alg: Algorithm, wanted: Option<Digest>, table: BlobTable)
      ensures this.h == h && this.sessionID == sessionID && this.table == table
      ensures Current() == NewSession(alg, wanted)
    {
      this.h, this.sessionID, this.wanted, this.table := h, sessionID, wanted, table;
      this.alg, buffer, w := alg, [], Writer(alg, []);
    }

    ghost function Current(): Session
      reads this
    {
      Session(buffer, alg, w, wanted)
    }

    /** Adds bytes unless the session has expired. */
    method Write(p: Bytes) returns (ok: bool)
      modifies this`buffer, this`w
      ensures ok == (sessionID in table.open)
      ensures Current() == if ok then AfterWrite(old(Current()), p) else old(Current())
    {
      ok := sessionID in table.open;
      if ok {
        buffer := buffer + p;
        w := w.(hashed := w.hashed + p);
      }
    }

    method ChangeAlgorithm(algo: Algorithm) returns (ok: bool)
      modifies this`alg, this`w
      ensures Current() == AfterChange(old(Current()), algo)
      ensures ok <==> algo == old(alg) || buffer == []
    {
      if algo == alg {
        return true;
      }
      if |buffer| > 0 {
        return false;
      }
      alg := algo;
      w := Writer(algo, []);
      return true;
    }

    method Verify(d: Digest) returns (ok: bool)
      modifies this`alg, this`w
      ensures Current() == AfterVerify(h, old(Current()), d)
      ensures ok == Verifies(h, old(Current()), d)
    {
      if DigestOf(h, w) == d {
        return true;
      }
      if alg != d.algorithm {
        alg := d.algorithm;
        w := Writer(alg, buffer);
        if DigestOf(h, w) == d {
          return true;
        }
      }
      return false;
    }

    method Cancel()
      modifies table
      ensures table.open == old(table.open) - {sessionID} && table.blobs == old(table.blobs)
    {
      table.open := table.open - {sessionID};
    }

    /** Stores the content under its digest and ends the session. */
    method Close() returns (ok: bool)
      modifies table
      ensures ok == MayClose(h, Current())
      ensures table.blobs == if ok then old(table.blobs)[DigestOf(h, w) := buffer] else old(table.blobs)
      ensures table.open == if ok then old(table.open) - {sessionID} else old(table.open)
    {
      if wanted.Some? && DigestOf(h, w) != wanted.value {
        return false;
      }
      table.blobs := table.blobs[DigestOf(h, w) := buffer];
      table.open := table.open - {sessionID};
      return true;
    }
  }

  method BlobUploadPatch(bc: MemRepoUpload, cr: Range, state: Option<int>, body: Body) returns (outcome: Outcome)
    modifies bc
    ensures (bc.Current(), outcome) ==
            if bc.sessionID in bc.table.open then PatchStep(old(bc.Current()), cr, state, body)
            else (old(bc.Current()), Rejected)
  {
    if bc.sessionID !in bc.table.open {
      return Rejected;
    }
    if !ValidRange(cr, |bc.buffer|) {
      return Rejected;
    }
    if state.None? || state.value != |bc.buffer| {
      return Rejected;
    }
    var written := bc.Write(body.bytes);
    if !written || body.broken {
      return Rejected;
    }
    return Accepted(|bc.buffer|);
  }

  method BlobUploadPut(bc: MemRepoUpload, cr: Range, digest: Option<Digest>, state: Option<int>, body: Body)
    returns (outcome: Outcome)
    modifies bc, bc.table
    ensures bc.sessionID !in old(bc.table.open) ==>
              outcome == Rejected && bc.Current() == old(bc.Current()) &&
              bc.table.open == old(bc.table.open) && bc.table.blobs == old(bc.table.blobs)
    ensures bc.sessionID in old(bc.table.open) ==>
            match PutStep(bc.h, old(bc.Current()), cr, digest, state, body)
            case Stays(s) =>
              outcome == Rejected && bc.Current() == s &&
              bc.table.open == old(bc.table.open) && bc.table.blobs == old(bc.table.blobs)
            case Dropped =>
              outcome == Rejected &&
              bc.table.open == old(bc.table.open) - {bc.sessionID} && bc.table.blobs == old(bc.table.blobs)
            case Stored(d, content) =>
              outcome == Created(d) &&
              bc.table.open == old(bc.table.open) - {bc.sessionID} &&
              bc.table.blobs == old(bc.table.blobs)[d := content]
  {
    if bc.sessionID !in bc.table.open {
      return Rejected;
    }
    if !ValidRange(cr, |bc.buffer|) {
      return Rejected;
    }
    if digest.None? {
      return Rejected;
    }
    var d := digest.value;
    if |bc.buffer| == 0 && d.algorithm != bc.w.alg {
      var changed := bc.ChangeAlgorithm(d.algorithm);
    }
    if state.None? || state.value != |bc.buffer| {
      return Rejected;
    }
    var written := bc.Write(body.bytes);
    if !written || body.broken {
      return Rejected;
    }
    var verified := bc.Verify(d);
    if !verified {
      bc.Cancel();
      return Rejected;
    }
    var closed := bc.Close();
    if !closed {
      return Rejected;
    }
    return Created(DigestOf(bc.h, bc.w));
  }
}
