/**
 * Properties of the box-storage contract: the store invariant every call keeps, what survives any
 * later history of calls, the read-after-write round trips, and how the two kinds of box name meet.
 */
module VaultProperties {
  import opened AlgoTypes
  import opened VaultSpec

  /** What the contract's own calls guarantee about one box. */
  predicate BoxWellFormed(k: string, b: Box, creator: Address)
  {
    match b
    case ExamBox(m) => m.examId == k && m.instructor == creator && m.startTime <= m.endTime
    case ProofBox(p) => k == ProofKey(p.examId, p.studentHash) && p.trustScore <= 100
  }

  /** Every box of the store is as the contract's calls write it. */
  ghost predicate WellFormed(s: Store, creator: Address)
  {
    forall k | k in s :: BoxWellFormed(k, s[k], creator)
  }

  /** One state-changing application call; the read-only calls never change the store. */
  datatype Call =
    | CreateExamCall(sender: Address, now: UInt64, examId: string, durationMinutes: UInt64, minTrustScore: UInt64)
    | SubmitProofCall(now: UInt64, examId: string, studentHash: string, trustScore: UInt64, proofHash: string)
    | CloseExamCall(sender: Address, examId: string)

  function Apply(s: Store, creator: Address, c: Call): Outcome
  {
    match c
    case CreateExamCall(sender, now, examId, duration, minScore) =>
      CreateExam(s, creator, sender, now, examId, duration, minScore)
    case SubmitProofCall(now, examId, studentHash, score, proofHash) =>
      SubmitProof(s, now, examId, studentHash, score, proofHash)
    case CloseExamCall(sender, examId) =>
      CloseExam(s, sender, examId)
  }

  /** The store after a history of calls, each applied to the store the previous one left. */
  function Run(s: Store, creator: Address, calls: seq<Call>): Store
    decreases |calls|
  {
    if calls == [] then s else Run(Apply(s, creator, calls[0]).boxes, creator, calls[1..])
  }

  /** A call that would overwrite the box named k: an exam of that name created by the creator. */
  predicate Recreates(c: Call, creator: Address, k: string)
  {
    c.CreateExamCall? && c.sender == creator && c.examId == k
  }

  /** A box no call rewrites except by re-creating an exam of its name: a proof, or a closed exam. */
  predicate Settled(b: Box)
  {
    b.ProofBox? || !b.meta.isActive
  }

  /** Every call keeps the invariant, whether it succeeds or fails. */
  lemma ApplyPreservesWellFormed(s: Store, creator: Address, c: Call)
    requires WellFormed(s, creator)
    ensures WellFormed(Apply(s, creator, c).boxes, creator)
  {
  }

  /** The invariant holds after every history of calls. */
  lemma {:induction false} RunPreservesWellFormed(s: Store, creator: Address, calls: seq<Call>)
    requires WellFormed(s, creator)
    ensures WellFormed(Run(s, creator, calls), creator)
    decreases |calls|
  {
    if calls != [] {
      ApplyPreservesWellFormed(s, creator, calls[0]);
      RunPreservesWellFormed(Apply(s, creator, calls[0]).boxes, creator, calls[1..]);
    }
  }

  /** No call removes a box: the set of box names only grows. */
  lemma {:induction false} RunKeepsKeys(s: Store, creator: Address, calls: seq<Call>)
    ensures s.Keys <= Run(s, creator, calls).Keys
    decreases |calls|
  {
    if calls != [] {
      RunKeepsKeys(Apply(s, creator, calls[0]).boxes, creator, calls[1..]);
    }
  }

  /** One call leaves a settled box alone unless it re-creates an exam under its name. */
  lemma ApplyKeepsSettled(s: Store, creator: Address, c: Call, k: string)
    requires k in s && Settled(s[k]) && !Recreates(c, creator, k)
    ensures k in Apply(s, creator, c).boxes && Apply(s, creator, c).boxes[k] == s[k]
  {
  }

  /**
   * A stored proof, and a closed exam, stay exactly as they are through any history of calls
   * that does not create an exam under the same name.
   */
  lemma {:induction false} SettledBoxesArePermanent(s: Store, creator: Address, calls: seq<Call>, k: string)
    requires k in s && Settled(s[k])
    requires forall i | 0 <= i < |calls| :: !Recreates(calls[i], creator, k)
    ensures k in Run(s, creator, calls) && Run(s, creator, calls)[k] == s[k]
    decreases |calls|
  {
    if calls != [] {
      ApplyKeepsSettled(s, creator, calls[0], k);
      var rest := calls[1..];
      assert forall i | 0 <= i < |rest| :: rest[i] == calls[i + 1];
      SettledBoxesArePermanent(Apply(s, creator, calls[0]).boxes, creator, rest, k);
    }
  }

  /** Once stored, a proof reads back unchanged after any history that does not re-create its box name. */
  lemma ProofIsPermanent(s: Store, creator: Address, calls: seq<Call>, examId: string, studentHash: string)
    requires GetProof(s, examId, studentHash).Ok?
    requires forall i | 0 <= i < |calls| :: !Recreates(calls[i], creator, ProofKey(examId, studentHash))
    ensures GetProof(Run(s, creator, calls), examId, studentHash) == GetProof(s, examId, studentHash)
  {
    SettledBoxesArePermanent(s, creator, calls, ProofKey(examId, studentHash));
  }

  /** After a successful close, every later submission for the exam fails as inactive, unless it is re-created. */
  lemma CloseIsFinal(s: Store, creator: Address, sender: Address, examId: string, calls: seq<Call>,
                     now: UInt64, studentHash: string, trustScore: UInt64, proofHash: string)
    requires CloseExam(s, sender, examId).status.Success?
    requires forall i | 0 <= i < |calls| :: !Recreates(calls[i], creator, examId)
    ensures SubmitProof(Run(CloseExam(s, sender, examId).boxes, creator, calls), now, examId, studentHash, trustScore, proofHash).status
            == Failure(ExamNotActive)
  {
    var closed := CloseExam(s, sender, examId).boxes;
    assert GetExamMetadata(closed, examId).Ok?;
    SettledBoxesArePermanent(closed, creator, calls, examId);
  }

  /** Every proof in a store the contract built satisfies 0 <= score <= 100. */
  lemma StoredScoresAreBounded(s: Store, creator: Address, calls: seq<Call>, examId: string, studentHash: string)
    requires WellFormed(s, creator)
    requires GetProof(Run(s, creator, calls), examId, studentHash).Ok?
    ensures GetProof(Run(s, creator, calls), examId, studentHash).value.trustScore <= 100
  {
    RunPreservesWellFormed(s, creator, calls);
    var t := Run(s, creator, calls);
    assert BoxWellFormed(ProofKey(examId, studentHash), t[ProofKey(examId, studentHash)], creator);
  }

  /** In a store the contract built, every exam's instructor is the creator, so close_exam is creator-only too. */
  lemma OnlyCreatorCloses(s: Store, creator: Address, sender: Address, examId: string)
    requires WellFormed(s, creator)
    requires CloseExam(s, sender, examId).status.Success?
    ensures sender == creator
  {
  }

  /**
   * get_proof reports a missing proof exactly when verify_proof_exists is false, and a proof that
   * reads back exists. A corollary of the contracts of VerifyProofExists and GetProof.
   */
  lemma ProofReadsAgree(s: Store, examId: string, studentHash: string)
    ensures GetProof(s, examId, studentHash) == Err(ProofNotFound) <==> !VerifyProofExists(s, examId, studentHash)
    ensures GetProof(s, examId, studentHash).Ok? ==> VerifyProofExists(s, examId, studentHash)
  {
  }

  /**
   * After a successful submission the proof reads back with the submitted fields and the submission
   * time (a corollary of SubmitProof's contract), and verify_proof_exists turns from false to true.
   */
  lemma SubmitThenRead(s: Store, now: UInt64, examId: string, studentHash: string, trustScore: UInt64, proofHash: string)
    requires SubmitProof(s, now, examId, studentHash, trustScore, proofHash).status.Success?
    ensures var t := SubmitProof(s, now, examId, studentHash, trustScore, proofHash).boxes;
      && GetProof(t, examId, studentHash) == Ok(ExamProof(studentHash, trustScore, proofHash, now, examId))
      && VerifyProofExists(t, examId, studentHash)
      && !VerifyProofExists(s, examId, studentHash)
  {
  }

  /** A second submission for the same exam and student always fails and leaves the store as it was. */
  lemma NoDuplicateSubmission(s: Store, now: UInt64, examId: string, studentHash: string, trustScore: UInt64,
                              proofHash: string, now': UInt64, trustScore': UInt64, proofHash': string)
    requires SubmitProof(s, now, examId, studentHash, trustScore, proofHash).status.Success?
    ensures var t := SubmitProof(s, now, examId, studentHash, trustScore, proofHash).boxes;
      && SubmitProof(t, now', examId, studentHash, trustScore', proofHash').status.Failure?
      && SubmitProof(t, now', examId, studentHash, trustScore', proofHash').boxes == t
  {
  }

  /** Box names of proofs are unambiguous as long as student hashes contain no underscore. */
  lemma ProofKeyInjective(e1: string, h1: string, e2: string, h2: string)
    requires '_' !in h1 && '_' !in h2
    ensures ProofKey(e1, h1) == ProofKey(e2, h2) <==> e1 == e2 && h1 == h2
  {
  }

  /** With an underscore in a student hash, two different submissions share one box name. */
  lemma ProofKeysCollide()
    ensures ProofKey("a", "b_c") == ProofKey("a_b", "c")
  {
  }

  /** An exam stored under a proof's box name makes that student's submission fail. */
  lemma CollidingExamBlocksSubmission(s: Store, now: UInt64, examId: string, studentHash: string,
                                      trustScore: UInt64, proofHash: string)
    requires GetExamMetadata(s, ProofKey(examId, studentHash)).Ok?
    ensures SubmitProof(s, now, examId, studentHash, trustScore, proofHash).status.Failure?
    ensures !GetProof(s, examId, studentHash).Ok? && VerifyProofExists(s, examId, studentHash)
  {
  }

  /** Creating an exam named like a proof's box name replaces the proof: it no longer reads back. */
  lemma CollidingExamOverwritesProof(s: Store, creator: Address, now: UInt64, examId: string, studentHash: string,
                                     durationMinutes: UInt64, minTrustScore: UInt64)
    requires GetProof(s, examId, studentHash).Ok?
    requires now + durationMinutes * SecondsPerMinute <= MaxUInt64
    ensures var t := CreateExam(s, creator, creator, now, ProofKey(examId, studentHash), durationMinutes, minTrustScore).boxes;
      && GetProof(t, examId, studentHash) == Err(WrongRecordKind)
      && VerifyProofExists(t, examId, studentHash)
  {
  }
}
