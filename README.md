# ZKP-Vault smart contracts in Dafny

ZKP-Vault records the outcome of AI-proctored exams on Algorand. Two versions of its application
(smart contract) are modelled here.

- **The box-storage contract** (`zkp_vault_contract.py`, class `ZKPVault`). It keeps two kinds of
  record in the application's box storage, which is one key space:
  - an exam's `ExamMetadata`, stored under the exam id;
  - a student's `ExamProof`, stored under `exam_id + "_" + student_hash`.

  `create_exam` is for the creator only. `submit_proof` checks the exam, its time window and the
  trust score, and refuses a second proof for the same key. `close_exam` is for the exam's
  instructor only. `get_proof`, `get_exam_metadata` and `verify_proof_exists` only read.
  A failed assertion aborts the whole call. Nothing the call wrote survives.
- **The stateless variant** (`contract.py`). It only checks that a trust score is at most 100. It
  stores nothing.

Files:

- `algo_types.dfy` (module `AlgoTypes`): unsigned 64-bit integers and addresses.
- `vault_spec.dfy` (module `VaultSpec`): the records and the box store. Each call of the box
  contract is a function from the store before the call to its status and the store after it.
- `vault_properties.dfy` (module `VaultProperties`): the store invariant and histories of calls.
  It also holds the lemmas relating the calls: round trips, permanence, closing, key collisions.
- `vault_contract.dfy` (module `VaultContract`): the application as a class `ZkpVault`. The class
  holds the creator and the box store, which its methods update in place. Each method is proved to
  behave exactly as the matching `VaultSpec` function and to keep the invariant.
- `simple_vault.dfy` (module `SimpleVault`): the stateless variant.

Modelling choices:

- The transaction sender (`Txn.sender`) and the latest block time (`Global.latest_timestamp`) are
  parameters of each call.
- The creator address (`Global.creator_address`) is fixed when the application is created. In the
  class it is a constant set by the constructor, which models `create_application`. In the
  `VaultSpec` functions it is a parameter.
- Box names are strings. The contract encodes them as UTF-8, which is injective, so comparing the
  strings gives the same answer as comparing the encoded names.
- The end time `now + duration_minutes * 60` is computed with unbounded integers. If it goes past
  2^64 - 1, the machine aborts the call. The model returns the failure `Overflow` instead.
- The box store is a map from names to typed records (`ExamBox` or `ProofBox`). Two different
  things can land on one name:
  - an exam id containing `_`, such as `"a_b"`, is also the proof name for exam `"a"` and
    student `"b"`;
  - two proofs collide when a student hash contains `_`.

  The model keeps this rather than assuming it away. `VaultProperties` proves the consequences.
  Such an exam blocks the student's submission. In the model, creating such an exam replaces a stored
  proof; on chain that write goes through only when the two encoded records have the same size.
  Proof names are unambiguous when student hashes contain no underscore.
- A read can find the other kind of record under a name, which only happens after such a
  collision. The contract then decodes the bytes as the wrong ARC4 structure. The model reports
  the failure `WrongRecordKind` instead.

## Model

| member | source | states |
|---|---|---|
| VaultSpec.ProofKey | projects/zkp_vault-contracts/smart_contracts/zkp_vault/zkp_vault_contract.py:137 | The proof's box name is the exam id, then one underscore, then the student hash, at those exact positions. |
| VaultSpec.CreateExam | projects/zkp_vault-contracts/smart_contracts/zkp_vault/zkp_vault_contract.py:63-84 | Fails with NotCreator unless the sender is the creator. It also fails when the end time would pass 2^64 - 1. A failure leaves the store unchanged. On success the exam reads back as active, with instructor = sender, start = now and end = now + 60 * duration. Every other box is unchanged. |
| VaultSpec.SubmitProof | projects/zkp_vault-contracts/smart_contracts/zkp_vault/zkp_vault_contract.py:106-145 | Succeeds exactly when all of these hold: the exam exists, is active and start <= now <= end; min <= score <= 100; the proof name is free. A missing exam gives ExamDoesNotExist. A taken proof name always fails. A failure leaves the store unchanged. On success exactly one name is added, and the proof reads back with the inputs and timestamp = now. Every existing box is unchanged. |
| VaultSpec.GetProof | projects/zkp_vault-contracts/smart_contracts/zkp_vault/zkp_vault_contract.py:163-167 | Returns ProofNotFound exactly when the proof name is absent. It succeeds exactly when that box holds a proof, and then returns that record. |
| VaultSpec.GetExamMetadata | projects/zkp_vault-contracts/smart_contracts/zkp_vault/zkp_vault_contract.py:180-184 | Returns ExamDoesNotExist exactly when the exam id is absent. It succeeds exactly when that box holds an exam, and then returns that record. |
| VaultSpec.CloseExam | projects/zkp_vault-contracts/smart_contracts/zkp_vault/zkp_vault_contract.py:197-211 | Succeeds exactly when the exam exists and the sender is its stored instructor. A failure leaves the store unchanged. On success only is_active becomes false: the other fields, the other boxes and the set of names stay the same. |
| VaultSpec.VerifyProofExists | projects/zkp_vault-contracts/smart_contracts/zkp_vault/zkp_vault_contract.py:229-230 | Never fails. It is true exactly when get_proof would not report ProofNotFound. |
| VaultProperties.ApplyPreservesWellFormed | projects/zkp_vault-contracts/smart_contracts/zkp_vault/zkp_vault_contract.py:64-209 | Every call keeps the store invariant. An exam is stored under its own id, its instructor is the creator and start <= end. A proof is stored under its own proof name and has score <= 100. |
| VaultProperties.RunPreservesWellFormed | projects/zkp_vault-contracts/smart_contracts/zkp_vault/zkp_vault_contract.py:64-209 | The invariant holds after any history of calls. |
| VaultProperties.RunKeepsKeys | projects/zkp_vault-contracts/smart_contracts/zkp_vault/zkp_vault_contract.py:82-209 | No history of calls removes a box. |
| VaultProperties.ApplyKeepsSettled | projects/zkp_vault-contracts/smart_contracts/zkp_vault/zkp_vault_contract.py:137-209 | A single call leaves a stored proof or a closed exam untouched unless the creator creates an exam under that name. |
| VaultProperties.SettledBoxesArePermanent | projects/zkp_vault-contracts/smart_contracts/zkp_vault/zkp_vault_contract.py:137-209 | A stored proof or closed exam stays exactly as it is through any history with no creator create_exam under that name. |
| VaultProperties.ProofIsPermanent | projects/zkp_vault-contracts/smart_contracts/zkp_vault/zkp_vault_contract.py:137-143 | A stored proof reads back unchanged after any such history. |
| VaultProperties.CloseIsFinal | projects/zkp_vault-contracts/smart_contracts/zkp_vault/zkp_vault_contract.py:187-211 | After a successful close_exam, every later submit_proof for that exam fails with ExamNotActive, unless the exam is created again. |
| VaultProperties.StoredScoresAreBounded | projects/zkp_vault-contracts/smart_contracts/zkp_vault/zkp_vault_contract.py:122-125 | Every proof in any store the contract builds from a well-formed start has trust score <= 100. |
| VaultProperties.OnlyCreatorCloses | projects/zkp_vault-contracts/smart_contracts/zkp_vault/zkp_vault_contract.py:64-205 | In a well-formed store, a successful close_exam was sent by the creator. Every instructor is the creator. |
| VaultProperties.ProofReadsAgree | projects/zkp_vault-contracts/smart_contracts/zkp_vault/zkp_vault_contract.py:163-230 | get_proof reports ProofNotFound exactly when verify_proof_exists is false. A proof that reads back also exists. |
| VaultProperties.SubmitThenRead | projects/zkp_vault-contracts/smart_contracts/zkp_vault/zkp_vault_contract.py:128-167 | After a successful submission, get_proof returns the submitted record with timestamp = now. verify_proof_exists turns from false to true. |
| VaultProperties.NoDuplicateSubmission | projects/zkp_vault-contracts/smart_contracts/zkp_vault/zkp_vault_contract.py:137-140 | After a successful submission, any second submission for the same exam and student fails and leaves the store unchanged. |
| VaultProperties.ProofKeyInjective | projects/zkp_vault-contracts/smart_contracts/zkp_vault/zkp_vault_contract.py:137 | If no student hash contains an underscore, two proof names are equal exactly when their exam ids and student hashes are. |
| VaultProperties.ProofKeysCollide | projects/zkp_vault-contracts/smart_contracts/zkp_vault/zkp_vault_contract.py:137 | With an underscore in a student hash, two different submissions share one box name. |
| VaultProperties.CollidingExamBlocksSubmission | projects/zkp_vault-contracts/smart_contracts/zkp_vault/zkp_vault_contract.py:137-140 | An exam stored under a proof's name makes that student's submission fail. get_proof then does not succeed, although verify_proof_exists is true. |
| VaultProperties.CollidingExamOverwritesProof | projects/zkp_vault-contracts/smart_contracts/zkp_vault/zkp_vault_contract.py:81-82 | In the model, creating an exam whose id equals a stored proof's name replaces the proof. It no longer reads back, although verify_proof_exists stays true. On chain this holds only when the encoded sizes match (see Left out). |
| VaultContract.ZkpVault.constructor | projects/zkp_vault-contracts/smart_contracts/zkp_vault/zkp_vault_contract.py:40-43 | A new application belongs to its sender, has no boxes and satisfies the invariant. |
| VaultContract.ZkpVault.CreateExam | projects/zkp_vault-contracts/smart_contracts/zkp_vault/zkp_vault_contract.py:63-84 | Updates the boxes in place exactly as VaultSpec.CreateExam and keeps the invariant. |
| VaultContract.ZkpVault.SubmitProof | projects/zkp_vault-contracts/smart_contracts/zkp_vault/zkp_vault_contract.py:106-145 | Updates the boxes in place exactly as VaultSpec.SubmitProof, checking the assertions in the source's order, and keeps the invariant. |
| VaultContract.ZkpVault.GetProof | projects/zkp_vault-contracts/smart_contracts/zkp_vault/zkp_vault_contract.py:163-167 | Returns exactly VaultSpec.GetProof of the current boxes and changes nothing. |
| VaultContract.ZkpVault.GetExamMetadata | projects/zkp_vault-contracts/smart_contracts/zkp_vault/zkp_vault_contract.py:180-184 | Returns exactly VaultSpec.GetExamMetadata of the current boxes and changes nothing. |
| VaultContract.ZkpVault.CloseExam | projects/zkp_vault-contracts/smart_contracts/zkp_vault/zkp_vault_contract.py:197-211 | Rewrites the exam's box in place with is_active false, exactly as VaultSpec.CloseExam, and keeps the invariant. Because every instructor is the creator, a successful close was sent by the creator. |
| VaultContract.ZkpVault.VerifyProofExists | projects/zkp_vault-contracts/smart_contracts/zkp_vault/zkp_vault_contract.py:229-230 | Returns exactly VaultSpec.VerifyProofExists of the current boxes and changes nothing. |
| SimpleVault.SubmitProof | projects/zkp_vault-contracts/smart_contracts/zkp_vault/contract.py:44-52 | Succeeds, with the fixed success message, exactly when the score is <= 100. Its only possible error is TrustScoreAbove100, because the non-negativity check cannot fail on an unsigned score. |
| SimpleVault.VerifySubmission | projects/zkp_vault-contracts/smart_contracts/zkp_vault/contract.py:74-80 | Never fails. It is true exactly when the score is <= 100. |
| SimpleVault.GetContractInfo | projects/zkp_vault-contracts/smart_contracts/zkp_vault/contract.py:90 | Returns the fixed name-and-version string. |
| SimpleVault.SubmitAgreesWithVerify | projects/zkp_vault-contracts/smart_contracts/zkp_vault/contract.py:45-78 | submit_proof succeeds exactly when verify_submission returns true for the same inputs. |
| SimpleVault.BoxedSubmissionVerifies | projects/zkp_vault-contracts/smart_contracts/zkp_vault/contract.py:45-46 | Any score the box-storage contract accepts is accepted by the stateless variant too. |

## Left out

- ARC4 byte encoding and decoding (`.bytes`, `from_bytes`) and the raw byte API of `op.Box`. Boxes hold typed records instead.
- VaultSpec.GetProof, VaultSpec.GetExamMetadata, VaultSpec.SubmitProof and VaultSpec.CloseExam: when a box holds the other kind of record, the contract decodes its bytes as the wrong structure and goes on with the garbage. The model stops with WrongRecordKind instead. The result of that decoding depends on the byte layout, which is not modelled.
- Box limits of the Algorand virtual machine: names must be 1 to 64 bytes, box_put fails on an existing box of a different size, and boxes need a minimum balance. These are platform rules, not checks in the contract. A call the model lets succeed may abort on chain because of them.
- VaultProperties.CollidingExamOverwritesProof: the overwrite holds on chain only when the encoded sizes are equal. An ExamMetadata record encodes to 61 + |exam_id| bytes, an ExamProof record to 28 + |student_hash| + |proof_hash| + |exam_id| bytes. Under the colliding name the two are equal only when |proof_hash| = 34. With a 64-character SHA-256 hex proof hash the sizes differ, box_put at zkp_vault_contract.py line 82 aborts the create_exam call, and the proof survives.
- VaultSpec.SubmitProof: the 64-byte box-name limit is not modelled. If the student hash is the 64-character hex form of a keccak256 digest, every proof name is at least 66 bytes long, and the put at line 143 would abort on chain although the model lets the submission succeed.
- The exact text of the success messages of the box-storage contract. The model returns only the status.
- Read-only calls are not part of the call histories in `VaultProperties`, because they never change the store.
- `deploy_config.py`: deployment through network and environment calls. Nothing in it can be stated.
- The browser-side incident detection, trust scoring, hashing and wallet submission, written in TypeScript, are not part of this model. The contracts do not contain that logic, so the score bounds here are the contracts' checks only.
