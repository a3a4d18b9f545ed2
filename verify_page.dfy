/**
 * The verification page: the pasted JSON is hashed, the hash is looked up in
 * the registry, and the lookup decides the verdict.
 */
module VerifyPage {
  import opened Wrappers
  import opened JsonValue
  import opened Registry
  import opened Digest
  import Text

  const NotFoundMessage := "This credential could not be found in the blockchain registry."
  const RevokedMessage := "This credential has been revoked and is no longer valid."
  const ValidMessage := "This credential is valid and verified on the blockchain!"

  /** The `verificationResult` the page shows. */
  datatype VerificationResult = VerificationResult(isValid: bool, credential: Option<Row>, message: string)

  /**
   * The three outcomes of a successful lookup: not found (no credential
   * attached), revoked (attached, not valid), and valid (attached, not revoked).
   */
  function Classify(found: Option<Row>): (r: VerificationResult)
    ensures r.isValid <==> found.Some? && !found.value.isRevoked
    ensures r.credential == found
    ensures found.None? ==> r.message == NotFoundMessage
    ensures found.Some? && found.value.isRevoked ==> r.message == RevokedMessage
  {
    match found
    case None => VerificationResult(false, None, NotFoundMessage)
    case Some(row) =>
      if row.isRevoked then VerificationResult(false, Some(row), RevokedMessage)
      else VerificationResult(true, Some(row), ValidMessage)
  }

  /** The toast a press of "Verify" ends with. */
  datatype Notice = EmptyInput | VerificationFailed | Shown

  class Verifier {
    var jsonInput: string
    var isVerifying: bool
    var verificationResult: Option<VerificationResult>

    constructor ()
      ensures jsonInput == "" && !isVerifying && verificationResult == None
    {
      jsonInput := "";
      isVerifying := false;
      verificationResult := None;
    }

    /** The text area's `onChange`. */
    method SetInput(text: string)
      modifies this
      ensures jsonInput == text
      ensures isVerifying == old(isVerifying) && verificationResult == old(verificationResult)
    {
      jsonInput := text;
    }

    /**
     * `handleVerify`. `parse` is `JSON.parse` (None when it throws), `sha` the
     * SHA-256 primitive, `table` the registry and `queryFails` whether the
     * database call reports an error.
     */
    method HandleVerify(parse: string -> Option<Json>, sha: Sha256, table: Table, queryFails: bool)
      returns (notice: Notice)
      modifies this
      ensures jsonInput == old(jsonInput)
      ensures Text.IsBlank(jsonInput) ==>
        notice == EmptyInput && isVerifying == old(isVerifying) && verificationResult == old(verificationResult)
      ensures !Text.IsBlank(jsonInput) ==> !isVerifying
      ensures !Text.IsBlank(jsonInput) && parse(jsonInput).None? ==>
        notice == VerificationFailed && verificationResult == None
      ensures !Text.IsBlank(jsonInput) && parse(jsonInput).Some? ==>
        var found := LookupByHash(table, HashJson(sha, parse(jsonInput).value));
        if queryFails || found == Ambiguous then
          notice == VerificationFailed && verificationResult == None
        else
          notice == Shown && verificationResult == Some(Classify(found.AsOption()))
    {
      if Text.IsBlank(jsonInput) {
        return EmptyInput;
      }
      isVerifying := true;
      verificationResult := None;
      var parsed := parse(jsonInput);
      if parsed.None? {
        notice := VerificationFailed;
      } else {
        var hash := HashJson(sha, parsed.value);
        var found := LookupByHash(table, hash);
        if queryFails || found == Ambiguous {
          notice := VerificationFailed;
        } else {
          notice := Shown;
          if found == Missing {
            verificationResult := Some(VerificationResult(false, None, NotFoundMessage));
          } else if found.row.isRevoked {
            verificationResult := Some(VerificationResult(false, Some(found.row), RevokedMessage));
          } else {
            verificationResult := Some(VerificationResult(true, Some(found.row), ValidMessage));
          }
        }
      }
      isVerifying := false;
    }

    /** `handleClear` */
    method HandleClear()
      modifies this
      ensures jsonInput == "" && verificationResult == None
      ensures isVerifying == old(isVerifying)
    {
      jsonInput := "";
      verificationResult := None;
    }
  }

  /**
   * A shown verdict is valid exactly when the table holds one row with the
   * input's hash and that row is not revoked.
   */
  lemma ValidIff(sha: Sha256, table: Table, v: Json)
    requires LookupByHash(table, HashJson(sha, v)) != Ambiguous
    ensures Classify(LookupByHash(table, HashJson(sha, v)).AsOption()).isValid <==>
      exists i :: UniqueMatch(table, HashJson(sha, v), i) && !table[i].isRevoked
  {
    var h := HashJson(sha, v);
    if LookupByHash(table, h).Found? {
      var i :| UniqueMatch(table, h, i);
    }
  }
}
