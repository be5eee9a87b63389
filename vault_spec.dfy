/**
 * The box-storage ZKP-Vault contract as functions over its box store.
 *
 * The contract keeps two kinds of records in one key space: an exam's metadata under the exam id,
 * and a student's proof under the exam id, an underscore and the student hash. Every public call
 * either fails (the transaction aborts and nothing it wrote survives) or succeeds with the writes
 * described here. The transaction sender and the latest block timestamp are parameters.
 */
module VaultSpec {
  import opened AlgoTypes

  /** The proof record written by submit_proof. */
  datatype ExamProof = ExamProof(
    studentHash: string,
    trustScore: UInt64,
    proofHash: string,
    timestamp: UInt64,
    examId: string)

  /** The exam record written by create_exam and updated by close_exam. */
  datatype ExamMetadata = ExamMetadata(
    examId: string,
    instructor: Address,
    startTime: UInt64,
    endTime: UInt64,
    minTrustScore: UInt64,
    isActive: bool)

  /** What one box holds. */
  datatype Box = ExamBox(meta: ExamMetadata) | ProofBox(proof: ExamProof)

  /** The contract's box storage: box name to contents. */
  type Store = map<string, Box>

  /** One reason per assertion of the contract that can abort a call. */
  datatype Error =
    | NotCreator              // "Only contract creator can create exams"
    | Overflow                // end-time arithmetic past 2^64 - 1
    | ExamDoesNotExist
    | WrongRecordKind         // the key holds a record of the other kind
    | ExamNotActive
    | ExamNotStarted
    | ExamEnded
    | TrustScoreBelowMinimum
    | TrustScoreAbove100
    | ProofAlreadySubmitted
    | ProofNotFound
    | NotInstructor           // "Only instructor can close exam"

  datatype Status = Success | Failure(error: Error)

  datatype Result<T> = Ok(value: T) | Err(error: Error)

  /** The status a state-changing call returns, with the box store after it. */
  datatype Outcome = Outcome(status: Status, boxes: Store)

  /** Seconds per minute, the factor create_exam applies to the duration. */
  const SecondsPerMinute: int := 60

  /** The box name of a proof: the exam id, an underscore, the student hash. */
  function ProofKey(examId: string, studentHash: string): (k: string)
    ensures |k| == |examId| + 1 + |studentHash|
    ensures k[..|examId|] == examId && k[|examId|] == '_' && k[|examId| + 1..] == studentHash
  {
    examId + "_" + studentHash
  }

  /** create_exam: only the creator may create; the exam opens now and ends duration minutes later. */
  function CreateExam(s: Store, creator: Address, sender: Address, now: UInt64, examId: string,
                      durationMinutes: UInt64, minTrustScore: UInt64): (o: Outcome)
    ensures o.status.Success? <==> sender == creator && now + durationMinutes * SecondsPerMinute <= MaxUInt64
    ensures sender != creator ==> o.status == Failure(NotCreator)
    ensures o.status.Failure? ==> o.boxes == s
    ensures o.status.Success? ==>
      && o.boxes.Keys == s.Keys + {examId}
      && GetExamMetadata(o.boxes, examId)
         == Ok(ExamMetadata(examId, sender, now, now + durationMinutes * SecondsPerMinute, minTrustScore, true))
      && (forall k | k in s && k != examId :: o.boxes[k] == s[k])
  {
    if sender != creator then Outcome(Failure(NotCreator), s)
    else
      var endTime := now + durationMinutes * SecondsPerMinute;
      if endTime > MaxUInt64 then Outcome(Failure(Overflow), s)
      else Outcome(Success, s[examId := ExamBox(ExamMetadata(examId, sender, now, endTime, minTrustScore, true))])
  }

  /**
   * submit_proof: the exam must exist, be active and be inside its window, the score must be between
   * the exam's minimum and 100, and no proof may be stored under the proof's key yet.
   */
  function SubmitProof(s: Store, now: UInt64, examId: string, studentHash: string,
                       trustScore: UInt64, proofHash: string): (o: Outcome)
    ensures o.status.Success? <==>
      && examId in s && s[examId].ExamBox?
      && s[examId].meta.isActive
      && s[examId].meta.startTime <= now <= s[examId].meta.endTime
      && s[examId].meta.minTrustScore <= trustScore <= 100
      && ProofKey(examId, studentHash) !in s
    ensures examId !in s ==> o.status == Failure(ExamDoesNotExist)
    ensures ProofKey(examId, studentHash) in s ==> o.status.Failure?
    ensures o.status.Failure? ==> o.boxes == s
    ensures o.status.Success? ==>
      && o.boxes.Keys == s.Keys + {ProofKey(examId, studentHash)}
      && GetProof(o.boxes, examId, studentHash) == Ok(ExamProof(studentHash, trustScore, proofHash, now, examId))
      && (forall k | k in s :: o.boxes[k] == s[k])
  {
    if examId !in s then Outcome(Failure(ExamDoesNotExist), s)
    else match s[examId]
      case ProofBox(_) => Outcome(Failure(WrongRecordKind), s)
      case ExamBox(meta) =>
        if !meta.isActive then Outcome(Failure(ExamNotActive), s)
        else if now < meta.startTime then Outcome(Failure(ExamNotStarted), s)
        else if now > meta.endTime then Outcome(Failure(ExamEnded), s)
        else if trustScore < meta.minTrustScore then Outcome(Failure(TrustScoreBelowMinimum), s)
        else if trustScore > 100 then Outcome(Failure(TrustScoreAbove100), s)
        else
          var key := ProofKey(examId, studentHash);
          if key in s then Outcome(Failure(ProofAlreadySubmitted), s)
          else Outcome(Success, s[key := ProofBox(ExamProof(studentHash, trustScore, proofHash, now, examId))])
  }

  /** get_proof: the record stored under the proof's key. */
  function GetProof(s: Store, examId: string, studentHash: string): (r: Result<ExamProof>)
    ensures r == Err(ProofNotFound) <==> ProofKey(examId, studentHash) !in s
    ensures r.Ok? <==> ProofKey(examId, studentHash) in s && s[ProofKey(examId, studentHash)].ProofBox?
    ensures r.Ok? ==> s[ProofKey(examId, studentHash)] == ProofBox(r.value)
  {
    var key := ProofKey(examId, studentHash);
    if key !in s then Err(ProofNotFound)
    else match s[key]
      case ProofBox(p) => Ok(p)
      case ExamBox(_) => Err(WrongRecordKind)
  }

  /** get_exam_metadata: the record stored under the exam id. */
  function GetExamMetadata(s: Store, examId: string): (r: Result<ExamMetadata>)
    ensures r == Err(ExamDoesNotExist) <==> examId !in s
    ensures r.Ok? <==> examId in s && s[examId].ExamBox?
    ensures r.Ok? ==> s[examId] == ExamBox(r.value)
  {
    if examId !in s then Err(ExamDoesNotExist)
    else match s[examId]
      case ExamBox(m) => Ok(m)
      case ProofBox(_) => Err(WrongRecordKind)
  }

  /** close_exam: only the exam's recorded instructor may close it; only the active flag changes. */
  function CloseExam(s: Store, sender: Address, examId: string): (o: Outcome)
    ensures o.status.Success? <==> examId in s && s[examId].ExamBox? && sender == s[examId].meta.instructor
    ensures examId !in s ==> o.status == Failure(ExamDoesNotExist)
    ensures o.status.Failure? ==> o.boxes == s
    ensures o.status.Success? ==>
      && o.boxes.Keys == s.Keys
      && GetExamMetadata(o.boxes, examId) == Ok(s[examId].meta.(isActive := false))
      && (forall k | k in s && k != examId :: o.boxes[k] == s[k])
  {
    if examId !in s then Outcome(Failure(ExamDoesNotExist), s)
    else match s[examId]
      case ProofBox(_) => Outcome(Failure(WrongRecordKind), s)
      case ExamBox(meta) =>
        if sender != meta.instructor then Outcome(Failure(NotInstructor), s)
        else Outcome(Success, s[examId := ExamBox(meta.(isActive := false))])
  }

  /** verify_proof_exists: never fails; true exactly when get_proof would not report a missing proof. */
  function VerifyProofExists(s: Store, examId: string, studentHash: string): (r: bool)
    ensures r <==> GetProof(s, examId, studentHash) != Err(ProofNotFound)
  {
    ProofKey(examId, studentHash) in s
  }
}
