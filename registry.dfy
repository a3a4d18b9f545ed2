/**
 * The `credentials` table as the pages see it: a list of rows, looked up by
 * `credential_hash` with `.maybeSingle()`.
 */
module Registry {
  import opened JsonValue
  import opened Wrappers

  datatype Row = Row(
    studentName: string,
    universityName: string,
    degreeType: string,
    major: string,
    gpa: string,
    graduationDate: string,
    credentialHash: string,
    walletAddress: string,
    transactionId: string,
    rawJson: Json,
    isRevoked: bool)

  type Table = seq<Row>

  /** What `.eq('credential_hash', hash).maybeSingle()` returns: no row, one row, or an error for several. */
  datatype Lookup = Missing | Found(row: Row) | Ambiguous {
    function AsOption(): Option<Row> {
      if Found? then Some(row) else None
    }
  }

  /** Row `i` is the one and only row carrying `hash`. */
  predicate UniqueMatch(table: Table, hash: string, i: int) {
    && 0 <= i < |table|
    && table[i].credentialHash == hash
    && forall j :: 0 <= j < |table| && j != i ==> table[j].credentialHash != hash
  }

  function LookupByHash(table: Table, hash: string): (r: Lookup)
    ensures r == Missing <==> forall j :: 0 <= j < |table| ==> table[j].credentialHash != hash
    ensures r.Found? <==> exists i :: UniqueMatch(table, hash, i)
    ensures forall i :: UniqueMatch(table, hash, i) ==> r == Found(table[i])
  {
    if table == [] then Missing
    else
      var rest := LookupByHash(table[1..], hash);
      if table[0].credentialHash != hash then
        assert forall i :: UniqueMatch(table[1..], hash, i) <==> UniqueMatch(table, hash, i + 1);
        assert !UniqueMatch(table, hash, 0);
        rest
      else if rest == Missing then
        assert UniqueMatch(table, hash, 0);
        Found(table[0])
      else
        assert forall i :: !UniqueMatch(table, hash, i);
        Ambiguous
  }

  /** A row inserted under a hash no other row carries is what a later lookup of that hash finds. */
  lemma InsertedFresh(table: Table, row: Row)
    requires LookupByHash(table, row.credentialHash) == Missing
    ensures LookupByHash(table + [row], row.credentialHash) == Found(row)
  {
    assert UniqueMatch(table + [row], row.credentialHash, |table|);
  }
}
