/**
 * The stateless ZKP-Vault variant: submissions are only validated, nothing is stored, and the
 * proof lives in the transaction itself. Its calls read and write no application state.
 */
module SimpleVault {
  import opened AlgoTypes
  import VaultSpec

  datatype Error =
    | TrustScoreAbove100   // "Trust score cannot exceed 100"
    | TrustScoreNegative   // "Trust score cannot be negative"

  datatype Result = Ok(message: string) | Err(error: Error)

  const SubmittedMessage: string := "Proof submitted successfully"

  const ContractInfo: string := "ZKP-Vault v1.0 - Privacy-Preserving AI Proctoring"

  /** submit_proof: accepts exactly the scores up to 100; the lower-bound check can never fail on an unsigned score. */
  function SubmitProof(examId: string, studentHash: string, trustScore: UInt64, proofHash: string): (r: Result)
    ensures r.Ok? <==> trustScore <= 100
    ensures r.Err? ==> r.error == TrustScoreAbove100
    ensures r.Ok? ==> r.message == SubmittedMessage
  {
    if !(trustScore <= 100) then Err(TrustScoreAbove100)
    else if !(trustScore >= 0) then Err(TrustScoreNegative)
    else Ok(SubmittedMessage)
  }

  /** verify_submission: never fails; true exactly for the scores up to 100. */
  function VerifySubmission(examId: string, studentHash: string, trustScore: UInt64, proofHash: string): (r: bool)
    ensures r <==> trustScore <= 100
  {
    trustScore <= 100 && trustScore >= 0
  }

  /** get_contract_info: the same name-and-version string on every call. */
  function GetContractInfo(): (r: string)
    ensures r == ContractInfo
  {
    ContractInfo
  }

  /** The two validating calls agree: a submission goes through exactly when it verifies. */
  lemma SubmitAgreesWithVerify(examId: string, studentHash: string, trustScore: UInt64, proofHash: string)
    ensures SubmitProof(examId, studentHash, trustScore, proofHash).Ok?
            <==> VerifySubmission(examId, studentHash, trustScore, proofHash)
  {
  }

  /** A score the box-storage contract accepts is also accepted by this variant. */
  lemma BoxedSubmissionVerifies(s: VaultSpec.Store, now: UInt64, examId: string, studentHash: string,
                                trustScore: UInt64, proofHash: string)
    requires VaultSpec.SubmitProof(s, now, examId, studentHash, trustScore, proofHash).status.Success?
    ensures VerifySubmission(examId, studentHash, trustScore, proofHash)
    ensures SubmitProof(examId, studentHash, trustScore, proofHash).Ok?
  {
  }
}
