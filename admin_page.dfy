/**
 * The issuance page: a six-field credential form, the all-fields-filled
 * gate, the row written to the registry and the form's reset.
 */
module AdminPage {
  import opened Wrappers
  import opened JsonValue
  import opened Canonical
  import opened Registry
  import opened Digest
  import Serialize
  import Utf8
  import KeySort
  import KeyOrder
  import Text
  import VerifyPage

  /** The keys of the `CredentialData` interface. */
  datatype Field = StudentName | UniversityName | DegreeType | Major | Gpa | GraduationDate

  function FieldName(f: Field): string {
    match f
    case StudentName => "student_name"
    case UniversityName => "university_name"
    case DegreeType => "degree_type"
    case Major => "major"
    case Gpa => "gpa"
    case GraduationDate => "graduation_date"
  }

  datatype CredentialData = CredentialData(
    studentName: string,
    universityName: string,
    degreeType: string,
    major: string,
    gpa: string,
    graduationDate: string)
  {
    function Get(f: Field): string {
      match f
      case StudentName => studentName
      case UniversityName => universityName
      case DegreeType => degreeType
      case Major => major
      case Gpa => gpa
      case GraduationDate => graduationDate
    }

    /** `{ ...this, [f]: v }`: field `f` set to `v`, the other five kept. */
    function With(f: Field, v: string): (d: CredentialData)
      ensures d.Get(f) == v
      ensures forall g :: g != f ==> d.Get(g) == Get(g)
    {
      match f
      case StudentName => this.(studentName := v)
      case UniversityName => this.(universityName := v)
      case DegreeType => this.(degreeType := v)
      case Major => this.(major := v)
      case Gpa => this.(gpa := v)
      case GraduationDate => this.(graduationDate := v)
    }
  }

  const EmptyCredential := CredentialData("", "", "", "", "", "")

  /** The interface's keys, in the order it declares them. */
  const FormKeys: seq<string> :=
    ["student_name", "university_name", "degree_type", "major", "gpa", "graduation_date"]

  function FormValues(d: CredentialData): (r: seq<string>)
    ensures |r| == |FormKeys|
  {
    [d.studentName, d.universityName, d.degreeType, d.major, d.gpa, d.graduationDate]
  }

  /** The form's object as `hashJSON` receives it, members in the order the form declares them. */
  function ToJson(d: CredentialData): Json {
    Obj(StringPairs(FormKeys, FormValues(d)))
  }

  /** The fields in the order the interface declares them. */
  const AllFields: seq<Field> := [StudentName, UniversityName, DegreeType, Major, Gpa, GraduationDate]

  /** Where the interface declares `f`. */
  function FieldIndex(f: Field): (i: nat)
    ensures i < |AllFields| && AllFields[i] == f
  {
    match f
    case StudentName => 0
    case UniversityName => 1
    case DegreeType => 2
    case Major => 3
    case Gpa => 4
    case GraduationDate => 5
  }

  lemma AllFieldsListed()
    ensures forall f: Field :: f in AllFields
  {
    forall f: Field
      ensures f in AllFields
    {
      assert AllFields[FieldIndex(f)] == f;
    }
  }

  /** The form's object lists each field once, under its interface key and with its value. */
  lemma ToJsonFields(d: CredentialData)
    ensures |ToJson(d).fields| == |AllFields|
    ensures forall i :: 0 <= i < |AllFields| ==>
      ToJson(d).fields[i] == (FieldName(AllFields[i]), Str(d.Get(AllFields[i])))
    ensures forall f :: (FieldName(f), Str(d.Get(f))) in ToJson(d).fields
  {
    forall f: Field
      ensures (FieldName(f), Str(d.Get(f))) in ToJson(d).fields
    {
      var i := FieldIndex(f);
      assert ToJson(d).fields[i] == (FieldName(f), Str(d.Get(f)));
    }
  }

  /** The fields among `fs` whose value is empty, in the order of `fs`. */
  function EmptyAmong(d: CredentialData, fs: seq<Field>): (r: seq<Field>)
    ensures forall f :: f in r <==> f in fs && d.Get(f) == ""
  {
    if fs == [] then []
    else (if d.Get(fs[0]) == "" then [fs[0]] else []) + EmptyAmong(d, fs[1..])
  }

  /** `Object.entries(d).filter(([_, value]) => !value)`, as the list of empty fields. */
  function EmptyFields(d: CredentialData): (r: seq<Field>)
    ensures forall f :: f in r <==> d.Get(f) == ""
  {
    AllFieldsListed();
    EmptyAmong(d, AllFields)
  }

  /** The same keys in ascending order. */
  const RecordKeys: seq<string> :=
    ["degree_type", "gpa", "graduation_date", "major", "student_name", "university_name"]

  /** The form's values, in the order of `RecordKeys`. */
  function RecordValues(d: CredentialData): (r: seq<string>)
    ensures |r| == |RecordKeys|
  {
    [d.degreeType, d.gpa, d.graduationDate, d.major, d.studentName, d.universityName]
  }

  /** The form's members in sorted key order: what `canonicalizeJSON` makes of it. */
  function CanonicalRecord(d: CredentialData): Json {
    Obj(StringPairs(RecordKeys, RecordValues(d)))
  }

  /** The six key names, strictly ascending. */
  lemma RecordKeysAscend(d: CredentialData)
    ensures KeySort.StrictlySorted(CanonicalRecord(d).fields)
  {
    var e := CanonicalRecord(d).fields;
    assert KeyOrder.Less(e[0].0, e[1].0);
    assert KeyOrder.Less(e[1].0, e[2].0);
    assert KeyOrder.Less(e[2].0, e[3].0);
    assert KeyOrder.Less(e[3].0, e[4].0);
    assert KeyOrder.Less(e[4].0, e[5].0);
    KeySort.StrictlySortedByNeighbours(e);
  }

  /** None of the form's keys is `__proto__`, so `canonicalizeJSON` keeps all six members. */
  lemma NoProtoMember(d: CredentialData)
    ensures forall p :: p in ToJson(d).fields ==> p.0 != ProtoKey
  {
    var fs := ToJson(d).fields;
    forall i | 0 <= i < |fs|
      ensures fs[i].0 != ProtoKey
    {
      assert |fs[i].0| != |ProtoKey|;
    }
  }

  /** The sorted record holds exactly the form's members, none of them keyed `__proto__`. */
  lemma RecordSameMembers(d: CredentialData)
    ensures forall p :: p in CanonicalRecord(d).fields <==> p in ToJson(d).fields && p.0 != ProtoKey
  {
    var fs := ToJson(d).fields;
    var e := CanonicalRecord(d).fields;
    assert e == [fs[2], fs[4], fs[5], fs[3], fs[0], fs[1]];
    assert fs == [fs[0], fs[1], fs[2], fs[3], fs[4], fs[5]];
    NoProtoMember(d);
  }

  /** `canonicalizeJSON` of the form is its members in sorted key order. */
  lemma CanonicalizeRecord(d: CredentialData)
    ensures Canonicalize(ToJson(d)) == CanonicalRecord(d)
  {
    RecordWellFormed(d);
    RecordKeysAscend(d);
    RecordSameMembers(d);
    ScalarObjectCanonical(ToJson(d).fields, CanonicalRecord(d).fields);
  }

  /** Distinct forms have distinct canonical texts. */
  lemma RecordTextInjective(d1: CredentialData, d2: CredentialData)
    requires Serialize.Serialize(CanonicalRecord(d1)) == Serialize.Serialize(CanonicalRecord(d2))
    ensures d1 == d2
  {
    Serialize.StringObjectInjective(RecordKeys, RecordValues(d1), RecordValues(d2));
    assert RecordValues(d1)[0] == RecordValues(d2)[0];
  }

  /** Distinct forms give distinct byte strings to SHA-256. */
  lemma CanonicalBytesInjective(d1: CredentialData, d2: CredentialData)
    requires CanonicalBytes(ToJson(d1)) == CanonicalBytes(ToJson(d2))
    ensures d1 == d2
  {
    CanonicalizeRecord(d1);
    CanonicalizeRecord(d2);
    Utf8.EncodeInjective(Serialize.Serialize(CanonicalRecord(d1)), Serialize.Serialize(CanonicalRecord(d2)));
    RecordTextInjective(d1, d2);
  }

  /**
   * Two different forms share a credential hash only through a SHA-256
   * collision: distinct inputs to `sha` with the same digest.
   */
  lemma SameHashIsCollision(sha: Sha256, d1: CredentialData, d2: CredentialData)
    requires d1 != d2
    requires HashJson(sha, ToJson(d1)) == HashJson(sha, ToJson(d2))
    ensures CanonicalBytes(ToJson(d1)) != CanonicalBytes(ToJson(d2))
    ensures sha(CanonicalBytes(ToJson(d1))) == sha(CanonicalBytes(ToJson(d2)))
  {
    SameHashIff(sha, ToJson(d1), ToJson(d2));
    if CanonicalBytes(ToJson(d1)) == CanonicalBytes(ToJson(d2)) {
      CanonicalBytesInjective(d1, d2);
    }
  }

  /** The form as `hashJSON` receives it is a JavaScript object: its six keys are distinct. */
  lemma RecordWellFormed(d: CredentialData)
    ensures WellFormed(ToJson(d))
  {
    var fs := ToJson(d).fields;
    var tags := ["st", "un", "de", "ma", "gp", "gr"];
    forall i | 0 <= i < |fs| ensures fs[i].0[..2] == tags[i] {
    }
    forall i, j | 0 <= i < j < |fs| ensures fs[i].0 != fs[j].0 {
      assert tags[i] != tags[j];
    }
  }

  /** The column of a registry row that holds field `f`. */
  function RowField(r: Row, f: Field): string {
    match f
    case StudentName => r.studentName
    case UniversityName => r.universityName
    case DegreeType => r.degreeType
    case Major => r.major
    case Gpa => r.gpa
    case GraduationDate => r.graduationDate
  }

  /**
   * The row `handleIssue` inserts: the six fields copied, `credential_hash`
   * the form's `hashJSON`, `raw_json` its `canonicalizeJSON`, and the
   * revocation flag at its default.
   */
  function IssuedRow(sha: Sha256, d: CredentialData, walletAddress: string, transactionId: string): Row {
    Row(d.studentName, d.universityName, d.degreeType, d.major, d.gpa, d.graduationDate,
        HashJson(sha, ToJson(d)), walletAddress, transactionId, Canonicalize(ToJson(d)), false)
  }

  /** The issued row copies the six fields and the wallet's two values, and is not revoked. */
  lemma IssuedRowFields(sha: Sha256, d: CredentialData, walletAddress: string, transactionId: string)
    ensures var r := IssuedRow(sha, d, walletAddress, transactionId);
      && (forall f :: RowField(r, f) == d.Get(f))
      && r.walletAddress == walletAddress && r.transactionId == transactionId && !r.isRevoked
  {
  }

  /** The issued row's `raw_json` holds the six members in ascending key order. */
  lemma IssuedRowRaw(sha: Sha256, d: CredentialData, walletAddress: string, transactionId: string)
    ensures IssuedRow(sha, d, walletAddress, transactionId).rawJson == CanonicalRecord(d)
  {
    CanonicalizeRecord(d);
  }

  /**
   * The issued row's `credential_hash` is the form's `hashJSON`, and hashing
   * its `raw_json` again reproduces it.
   */
  lemma IssuedRowRehashes(sha: Sha256, d: CredentialData, walletAddress: string, transactionId: string)
    ensures var r := IssuedRow(sha, d, walletAddress, transactionId);
      r.credentialHash == HashJson(sha, ToJson(d)) && r.credentialHash == HashJson(sha, r.rawJson)
  {
    HashOfCanonical(sha, ToJson(d));
  }

  /**
   * An object with the form's six key/value pairs, in any order, hashes to
   * the `credential_hash` stored for the form.
   */
  lemma ReorderedHashMatches(sha: Sha256, d: CredentialData, walletAddress: string, transactionId: string,
                             fs: seq<(string, Json)>)
    requires DistinctKeys(fs)
    requires forall p :: p in fs <==> p in ToJson(d).fields
    ensures HashJson(sha, Obj(fs)) == IssuedRow(sha, d, walletAddress, transactionId).credentialHash
  {
    RecordWellFormed(d);
    ReorderedObject(fs, ToJson(d).fields);
    HashOfCanonical(sha, Obj(fs));
    HashOfCanonical(sha, ToJson(d));
  }

  /**
   * Issue, then verify: once the issued row is the only one with its hash, a
   * pasted object with the same six key/value pairs in any order is found
   * and judged valid.
   */
  lemma IssueThenVerify(sha: Sha256, d: CredentialData, walletAddress: string, transactionId: string,
                        table: Table, fs: seq<(string, Json)>)
    requires LookupByHash(table, HashJson(sha, ToJson(d))) == Missing
    requires DistinctKeys(fs)
    requires forall p :: p in fs <==> p in ToJson(d).fields
    ensures var row := IssuedRow(sha, d, walletAddress, transactionId);
      VerifyPage.Classify(LookupByHash(table + [row], HashJson(sha, Obj(fs))).AsOption())
        == VerifyPage.VerificationResult(true, Some(row), VerifyPage.ValidMessage)
  {
    var row := IssuedRow(sha, d, walletAddress, transactionId);
    ReorderedHashMatches(sha, d, walletAddress, transactionId, fs);
    InsertedFresh(table, row);
    assert LookupByHash(table + [row], HashJson(sha, Obj(fs))).AsOption() == Some(row);
  }

  /** A chosen file: its MIME type and size in bytes. */
  datatype FileInfo = FileInfo(mimeType: string, size: int)

  const MaxUploadBytes := 5 * 1024 * 1024

  datatype UploadCheck = NoFile | InvalidType | TooLarge | Accepted

  /** The checks `handleFileSelect` makes before reading the file. */
  function CheckUpload(file: Option<FileInfo>): (r: UploadCheck)
    ensures r == Accepted <==>
      file.Some? && Text.StartsWith(file.value.mimeType, "image/") && file.value.size <= MaxUploadBytes
    ensures r == NoFile <==> file.None?
    ensures r == InvalidType <==> file.Some? && !Text.StartsWith(file.value.mimeType, "image/")
    ensures r == TooLarge <==>
      file.Some? && Text.StartsWith(file.value.mimeType, "image/") && file.value.size > MaxUploadBytes
  {
    match file
    case None => NoFile
    case Some(f) =>
      if !Text.StartsWith(f.mimeType, "image/") then InvalidType
      else if f.size > MaxUploadBytes then TooLarge
      else Accepted
  }

  /** The toast a press of "Issue Credential" ends with. */
  datatype IssueNotice = IncompleteData | WalletMissing | IssueFailed | Issued(hash: string)

  /**
   * How `handleIssue` ends for form `d`: the empty-field gate, then the
   * wallet-provider gate, then the wallet, signing and insert steps, any of
   * which can throw.
   */
  function IssueOutcome(sha: Sha256, d: CredentialData, hasWallet: bool, walletAddress: Option<string>,
                        transactionId: Option<string>, insertFails: bool): IssueNotice
  {
    if EmptyFields(d) != [] then IncompleteData
    else if !hasWallet then WalletMissing
    else if walletAddress.None? || transactionId.None? || insertFails then IssueFailed
    else Issued(IssuedRow(sha, d, walletAddress.value, transactionId.value).credentialHash)
  }

  /**
   * Incomplete exactly when a field is empty; wallet missing exactly when
   * all are filled and there is no provider; issued exactly when every step
   * succeeds, and then with the hash of the form.
   */
  lemma IssueOutcomeIff(sha: Sha256, d: CredentialData, hasWallet: bool, walletAddress: Option<string>,
                        transactionId: Option<string>, insertFails: bool)
    ensures var r := IssueOutcome(sha, d, hasWallet, walletAddress, transactionId, insertFails);
      && (r == IncompleteData <==> exists f :: d.Get(f) == "")
      && (r == WalletMissing <==> (forall f :: d.Get(f) != "") && !hasWallet)
      && (r.Issued? <==>
        (forall f :: d.Get(f) != "") && hasWallet && walletAddress.Some? && transactionId.Some? && !insertFails)
      && (r.Issued? ==> r.hash == HashJson(sha, ToJson(d)))
  {
    IssueGate(d);
  }

  /** The issuance page's state. */
  class Issuer {
    var credentialData: CredentialData
    var showForm: bool
    var uploadedImage: Option<string>
    var isIssuing: bool
    var isExtracting: bool

    constructor ()
      ensures credentialData == EmptyCredential && !showForm && uploadedImage == None
      ensures !isIssuing && !isExtracting
    {
      credentialData := EmptyCredential;
      showForm := false;
      uploadedImage := None;
      isIssuing := false;
      isExtracting := false;
    }

    /** `handleInputChange(field, value)`: one field edited, the rest of the page untouched. */
    method HandleInputChange(field: Field, value: string)
      modifies this
      ensures credentialData.Get(field) == value
      ensures forall g :: g != field ==> credentialData.Get(g) == old(credentialData).Get(g)
      ensures showForm == old(showForm) && uploadedImage == old(uploadedImage)
      ensures isIssuing == old(isIssuing) && isExtracting == old(isExtracting)
    {
      credentialData := credentialData.With(field, value);
    }

    /**
     * The synchronous part of `handleFileSelect`: a file that passes the
     * checks starts an extraction; anything else leaves the page as it was.
     */
    method HandleFileSelect(file: Option<FileInfo>) returns (check: UploadCheck)
      modifies this
      ensures check == CheckUpload(file)
      ensures isExtracting == (check == Accepted || old(isExtracting))
      ensures credentialData == old(credentialData) && showForm == old(showForm)
      ensures uploadedImage == old(uploadedImage) && isIssuing == old(isIssuing)
    {
      check := CheckUpload(file);
      if check == Accepted {
        isExtracting := true;
      }
    }

    /**
     * The file reader's `onload`: the image is kept, and the extraction
     * service's answer (None when it fails) fills and opens the form.
     */
    method CompleteExtraction(image: string, extracted: Option<CredentialData>)
      modifies this
      ensures uploadedImage == Some(image) && !isExtracting
      ensures extracted.Some? ==> credentialData == extracted.value && showForm
      ensures extracted.None? ==> credentialData == old(credentialData) && showForm == old(showForm)
      ensures isIssuing == old(isIssuing)
    {
      uploadedImage := Some(image);
      if extracted.Some? {
        credentialData := extracted.value;
        showForm := true;
      }
      isExtracting := false;
    }

    /**
     * `handleIssue`. `hasWallet` is `isMetaMaskInstalled()`; `walletAddress`
     * and `transactionId` are what `connectWallet` and `simulateTransaction`
     * return (None when they throw); `insertFails` is whether the insert
     * reports an error. `stored` is the registry afterwards.
     */
    method HandleIssue(sha: Sha256, hasWallet: bool, walletAddress: Option<string>,
                       transactionId: Option<string>, insertFails: bool, table: Table)
      returns (notice: IssueNotice, stored: Table)
      modifies this
      ensures isExtracting == old(isExtracting)
      ensures notice == IssueOutcome(sha, old(credentialData), hasWallet, walletAddress, transactionId, insertFails)
      ensures notice.Issued? ==>
        stored == table + [IssuedRow(sha, old(credentialData), walletAddress.value, transactionId.value)]
      ensures !notice.Issued? ==> stored == table
      ensures notice.Issued? ==>
        credentialData == EmptyCredential && !showForm && uploadedImage == None
      ensures !notice.Issued? ==>
        credentialData == old(credentialData) && showForm == old(showForm) && uploadedImage == old(uploadedImage)
      ensures isIssuing == (if notice == IncompleteData || notice == WalletMissing then old(isIssuing) else false)
    {
      var d := credentialData;
      stored := table;
      if EmptyFields(d) != [] {
        notice := IncompleteData;
      } else if !hasWallet {
        notice := WalletMissing;
      } else {
        isIssuing := true;
        if walletAddress.None? || transactionId.None? || insertFails {
          notice := IssueFailed;
        } else {
          var row := IssuedRow(sha, d, walletAddress.value, transactionId.value);
          stored := table + [row];
          notice := Issued(row.credentialHash);
          credentialData := EmptyCredential;
          showForm := false;
          uploadedImage := None;
        }
        isIssuing := false;
      }
    }

    /** `handleCancel`: the form hidden, the image dropped and every field emptied. */
    method HandleCancel()
      modifies this
      ensures credentialData == EmptyCredential && !showForm && uploadedImage == None
      ensures isIssuing == old(isIssuing) && isExtracting == old(isExtracting)
    {
      showForm := false;
      uploadedImage := None;
      credentialData := EmptyCredential;
    }
  }

  /** A form that passes the gate has no empty field; one that fails it has one. */
  lemma IssueGate(d: CredentialData)
    ensures EmptyFields(d) == [] <==> forall f :: d.Get(f) != ""
  {
    if EmptyFields(d) != [] {
      assert EmptyFields(d)[0] in EmptyFields(d);
    }
  }
}
