/** The nonce ledger: the JSON file mapping each request nonce to the
    repository created for it. JSON object keys are strings, so a request
    without a nonce never finds an entry, and an entry written for it is
    stored under the key "null", which is what `json.dump` makes of a `None`
    key. */
module Ledger {
  import opened Base

  /** One entry: `{"task": ..., "repo_url": ..., "pages_url": ...}`. */
  datatype Record = Record(task: Option<string>, repoUrl: string, pagesUrl: string)

  type Ledger = map<string, Record>

  /** The key under which the entry for `nonce` is written. */
  function Key(nonce: Option<string>): (k: string)
    ensures nonce.Some? ==> k == nonce.value
    ensures nonce.None? ==> k == "null"
  {
    nonce.GetOr("null")
  }

  /** `nonce_data[nonce]` guarded by `nonce in nonce_data`. */
  function Lookup(ledger: Ledger, nonce: Option<string>): (r: Option<Record>)
    ensures r.Some? <==> nonce.Some? && nonce.value in ledger
    ensures r.Some? ==> r.value == ledger[nonce.value]
  {
    match nonce
    case None => None
    case Some(n) => if n in ledger then Some(ledger[n]) else None
  }

  /** `existing_repo_url`: the repository recorded for the nonce, if any. */
  function ExistingRepo(ledger: Ledger, nonce: Option<string>): Option<string>
  {
    match Lookup(ledger, nonce)
    case None => None
    case Some(rec) => Some(rec.repoUrl)
  }

  /** `if not existing_repo_url`: the request creates a new repository
      exactly when the nonce has no entry or its entry has an empty
      repository URL; otherwise it updates the recorded one. */
  predicate CreatesRepo(ledger: Ledger, nonce: Option<string>)
  {
    !Truthy(ExistingRepo(ledger, nonce))
  }

  lemma CreatesRepoIff(ledger: Ledger, nonce: Option<string>)
    ensures CreatesRepo(ledger, nonce) <==>
              nonce.None? || nonce.value !in ledger || ledger[nonce.value].repoUrl == ""
  {
  }

  /** Writing an entry for a nonce makes a later lookup of the same nonce
      find it, and leaves every other key as it was. */
  lemma WriteThenLookup(ledger: Ledger, nonce: string, rec: Record, other: Option<string>)
    requires other != Some(nonce)
    ensures Lookup(ledger[Key(Some(nonce)) := rec], Some(nonce)) == Some(rec)
    ensures other.Some? ==> Lookup(ledger[Key(Some(nonce)) := rec], other) == Lookup(ledger, other)
  {
  }

  /** An entry written for a request without a nonce is never found by
      another request without a nonce, but a request whose nonce is the
      string "null" finds it. */
  lemma MissingNonceEntry(ledger: Ledger, rec: Record)
    ensures Lookup(ledger[Key(None) := rec], None) == None
    ensures Lookup(ledger[Key(None) := rec], Some("null")) == Some(rec)
  {
  }
}
