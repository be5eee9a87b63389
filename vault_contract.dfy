/**
 * The deployed box-storage ZKP-Vault application: its creator and its box storage, updated in place
 * by the state-changing calls. Each call is proved against the matching function of VaultSpec, and
 * keeps the store invariant of VaultProperties.
 */
module VaultContract {
  import opened AlgoTypes
  import opened VaultSpec
  import opened VaultProperties

  class ZkpVault {
    /** The account that created the application (the chain's creator address). */
    const creator: Address
    /** The application's box storage. */
    var boxes: Store

    ghost predicate Valid()
      reads this
    {
      WellFormed(boxes, creator)
    }

    /** create_application: a new application owned by its sender, with no boxes yet. */
    constructor (sender: Address)
      ensures creator == sender && boxes == map[]
      ensures Valid()
    {
      creator := sender;
      boxes := map[];
    }

    method CreateExam(sender: Address, now: UInt64, examId: string, durationMinutes: UInt64, minTrustScore: UInt64)
      returns (status: Status)
      requires Valid()
      modifies this
      ensures Valid()
      ensures Outcome(status, boxes)
              == VaultSpec.CreateExam(old(boxes), creator, sender, now, examId, durationMinutes, minTrustScore)
    {
      ApplyPreservesWellFormed(boxes, creator, CreateExamCall(sender, now, examId, durationMinutes, minTrustScore));
      if sender != creator {
        return Failure(NotCreator);
      }
      var endTime := now + durationMinutes * SecondsPerMinute;
      if endTime > MaxUInt64 {
        return Failure(Overflow);
      }
      var meta := ExamMetadata(examId, sender, now, endTime, minTrustScore, true);
      boxes := boxes[examId := ExamBox(meta)];
      status := Success;
    }

    method SubmitProof(now: UInt64, examId: string, studentHash: string, trustScore: UInt64, proofHash: string)
      returns (status: Status)
      requires Valid()
      modifies this
      ensures Valid()
      ensures Outcome(status, boxes)
              == VaultSpec.SubmitProof(old(boxes), now, examId, studentHash, trustScore, proofHash)
    {
      ApplyPreservesWellFormed(boxes, creator, SubmitProofCall(now, examId, studentHash, trustScore, proofHash));
      if examId !in boxes {
        return Failure(ExamDoesNotExist);
      }
      if !boxes[examId].ExamBox? {
        return Failure(WrongRecordKind);
      }
      var meta := boxes[examId].meta;
      if !meta.isActive {
        return Failure(ExamNotActive);
      }
      if now < meta.startTime {
        return Failure(ExamNotStarted);
      }
      if now > meta.endTime {
        return Failure(ExamEnded);
      }
      if trustScore < meta.minTrustScore {
        return Failure(TrustScoreBelowMinimum);
      }
      if trustScore > 100 {
        return Failure(TrustScoreAbove100);
      }
      var proof := ExamProof(studentHash, trustScore, proofHash, now, examId);
      var key := ProofKey(examId, studentHash);
      if key in boxes {
        return Failure(ProofAlreadySubmitted);
      }
      boxes := boxes[key := ProofBox(proof)];
      status := Success;
    }

    method GetProof(examId: string, studentHash: string) returns (r: Result<ExamProof>)
      ensures r == VaultSpec.GetProof(boxes, examId, studentHash)
    {
      var key := ProofKey(examId, studentHash);
      if key !in boxes {
        return Err(ProofNotFound);
      }
      var b := boxes[key];
      if b.ProofBox? {
        r := Ok(b.proof);
      } else {
        r := Err(WrongRecordKind);
      }
    }

    method GetExamMetadata(examId: string) returns (r: Result<ExamMetadata>)
      ensures r == VaultSpec.GetExamMetadata(boxes, examId)
    {
      if examId !in boxes {
        return Err(ExamDoesNotExist);
      }
      var b := boxes[examId];
      if b.ExamBox? {
        r := Ok(b.meta);
      } else {
        r := Err(WrongRecordKind);
      }
    }

    method CloseExam(sender: Address, examId: string) returns (status: Status)
      requires Valid()
      modifies this
      ensures Valid()
      ensures Outcome(status, boxes) == VaultSpec.CloseExam(old(boxes), sender, examId)
      ensures status.Success? ==> sender == creator
    {
      ApplyPreservesWellFormed(boxes, creator, CloseExamCall(sender, examId));
      if examId !in boxes {
        return Failure(ExamDoesNotExist);
      }
      if !boxes[examId].ExamBox? {
        return Failure(WrongRecordKind);
      }
      var meta := boxes[examId].meta;
      if sender != meta.instructor {
        return Failure(NotInstructor);
      }
      meta := meta.(isActive := false);
      boxes := boxes[examId := ExamBox(meta)];
      status := Success;
    }

    method VerifyProofExists(examId: string, studentHash: string) returns (r: bool)
      ensures r == VaultSpec.VerifyProofExists(boxes, examId, studentHash)
    {
      r := ProofKey(examId, studentHash) in boxes;
    }
  }
}
