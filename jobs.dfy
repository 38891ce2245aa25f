/** The in-memory job store behind the /api/jobs routes: a list of job records
    and an id counter, changed in place by create, update, delete and reset. */
module Jobs {
  import opened JsText

  /** A stored job record. `updatedAt` is absent until the first update. */
  datatype Job = Job(
    id: nat,
    company: string,
    title: string,
    status: string,
    applicationDate: string,
    notes: string,
    createdAt: string,
    updatedAt: Option<string>)

  /** The fields a create or update request body may carry. */
  datatype JobInput = JobInput(
    company: Option<string>,
    title: Option<string>,
    status: Option<string>,
    applicationDate: Option<string>,
    notes: Option<string>)

  /** The replies of the mutating routes. */
  datatype JobReply =
    | Created(job: Job)
    | Updated(job: Job)
    | Deleted(message: string, job: Job)
    | BadRequest(error: string)
    | NotFound(error: string)
  {
    function Code(): nat {
      match this
      case Created(_) => 201
      case Updated(_) => 200
      case Deleted(_, _) => 200
      case BadRequest(_) => 400
      case NotFound(_) => 404
    }
  }

  const RequiredFieldsError := "Company, title, and status are required fields"
  const InvalidStatusError := "Invalid status. Must be: Applied, Interviewing, Rejected, or Offer"
  const JobNotFoundError := "Job not found"
  const DeletedMessage := "Job deleted successfully"

  const ValidStatuses: seq<string> := ["applied", "interviewing", "rejected", "offer"]
  const CanonicalStatuses: set<string> := {"Applied", "Interviewing", "Rejected", "Offer"}

  // ---------------------------------------------------------------- status

  /** A status is accepted when its lower-cased form is one of the four, which
      is when its canonical spelling is one of the four stored ones. */
  predicate IsValidStatus(s: string)
    ensures IsValidStatus(s) <==> Canonicalize(s) in CanonicalStatuses
  {
    LowerInValidIffCanonical(s);
    Lower(s) in ValidStatuses
  }

  lemma {:induction false} LowerInValidIffCanonical(s: string)
    ensures Lower(s) in ValidStatuses <==> Canonicalize(s) in CanonicalStatuses
  {
    LowerOfCanonicalize(s);
    var l := Lower(s);
    if l in ValidStatuses {
      CanonicalizeIgnoresCase(s);
      LowerIdempotent(s);
      CanonicalizeLowercase(l);
      CapitalizedStatus(l);
    }
    if Canonicalize(s) in CanonicalStatuses {
      StoredStatusLowers(Canonicalize(s));
    }
  }

  /** Each stored spelling lower-cases to one of the four accepted statuses. */
  lemma StoredStatusLowers(c: string)
    requires c in CanonicalStatuses
    ensures Lower(c) in ValidStatuses
  {
    if c == "Applied" {
      assert Lower(c) == "applied";
    } else if c == "Interviewing" {
      assert Lower(c) == "interviewing";
    } else if c == "Rejected" {
      assert Lower(c) == "rejected";
    } else {
      assert Lower(c) == "offer";
    }
  }

  /** First character upper-cased, the rest lower-cased: the spelling of the
      same length that agrees with `s` up to case, does not start with a
      lower-case letter and has no upper-case letter after the first. */
  function Canonicalize(s: string): (r: string)
    ensures |r| == |s|
    ensures forall i :: 0 <= i < |s| ==> LowerChar(r[i]) == LowerChar(s[i])
    ensures r != [] ==> !('a' <= r[0] <= 'z')
    ensures forall i :: 1 <= i < |r| ==> !('A' <= r[i] <= 'Z')
  {
    if s == [] then [] else [UpperChar(s[0])] + Lower(s[1..])
  }

  lemma UpperOfLower(c: char)
    ensures UpperChar(LowerChar(c)) == UpperChar(c)
    ensures LowerChar(UpperChar(c)) == LowerChar(c)
  {
  }

  /** Canonicalisation ignores the case of its input. */
  lemma {:induction false} CanonicalizeIgnoresCase(s: string)
    ensures Canonicalize(s) == Canonicalize(Lower(s))
  {
    if s != [] {
      UpperOfLower(s[0]);
      assert Lower(s)[1..] == Lower(s[1..]);
      LowerIdempotent(s[1..]);
    }
  }

  /** Two spellings of a status that differ only in case canonicalise alike. */
  lemma CanonicalizeSameLower(s: string, t: string)
    requires Lower(s) == Lower(t)
    ensures Canonicalize(s) == Canonicalize(t)
  {
    CanonicalizeIgnoresCase(s);
    CanonicalizeIgnoresCase(t);
  }

  /** Lower-casing a canonical status gives the lower-cased input. */
  lemma {:induction false} LowerOfCanonicalize(s: string)
    ensures Lower(Canonicalize(s)) == Lower(s)
  {
    if s != [] {
      var c := Canonicalize(s);
      var lc, ls := Lower(c), Lower(s);
      assert |lc| == |ls|;
      forall i | 0 <= i < |s| ensures lc[i] == ls[i] {
        assert lc[i] == LowerChar(c[i]);
        assert ls[i] == LowerChar(s[i]);
      }
    }
  }

  lemma CanonicalizeLowercase(l: string)
    requires l != [] && Lower(l) == l
    ensures Canonicalize(l) == [UpperChar(l[0])] + l[1..]
  {
    assert Lower(l[1..]) == Lower(l)[1..];
  }

  /** An accepted status canonicalises to one of the four stored spellings,
      and that spelling lower-cases back to the lower-cased input, so a list
      filter spelled like the request finds the job again. */
  lemma {:induction false} CanonicalizeValid(s: string)
    requires IsValidStatus(s)
    ensures Canonicalize(s) in CanonicalStatuses
    ensures Lower(Canonicalize(s)) == Lower(s)
  {
    CanonicalizeIgnoresCase(s);
    LowerOfCanonicalize(s);
    var l := Lower(s);
    LowerIdempotent(s);
    CanonicalizeLowercase(l);
    CapitalizedStatus(l);
  }

  /** Capitalising one of the four lower-case statuses gives its stored
      spelling. */
  lemma CapitalizedStatus(l: string)
    requires l in ValidStatuses
    ensures [UpperChar(l[0])] + l[1..] in CanonicalStatuses
  {
    if l == "applied" {
      assert [UpperChar(l[0])] + l[1..] == "Applied";
    } else if l == "interviewing" {
      assert [UpperChar(l[0])] + l[1..] == "Interviewing";
    } else if l == "rejected" {
      assert [UpperChar(l[0])] + l[1..] == "Rejected";
    } else {
      assert l == "offer";
      assert [UpperChar(l[0])] + l[1..] == "Offer";
    }
  }

  /** Canonicalising a canonical status changes nothing. */
  lemma {:induction false} CanonicalizeIdempotent(s: string)
    ensures Canonicalize(Canonicalize(s)) == Canonicalize(s)
  {
    if s != [] {
      var c := Canonicalize(s);
      assert c[1..] == Lower(s[1..]);
      LowerIdempotent(s[1..]);
      assert UpperChar(UpperChar(s[0])) == UpperChar(s[0]);
    }
  }

  /** "applied" and "APPLIED" are both stored as "Applied". */
  lemma AppliedInAnyCase()
    ensures Canonicalize("applied") == "Applied"
    ensures Canonicalize("APPLIED") == "Applied"
  {
    var l := "applied";
    assert Lower(l) == l;
    assert Lower("APPLIED") == l;
    CanonicalizeLowercase(l);
    assert [UpperChar(l[0])] + l[1..] == "Applied";
    CanonicalizeIgnoresCase("APPLIED");
  }

  // ------------------------------------------------------------ validation

  /** The 400 answer of create and update, or None when the body is accepted:
      the presence check comes first, then the status check. */
  function ValidationError(input: JobInput): (r: Option<string>)
    ensures r == None <==>
      Truthy(input.company) && Truthy(input.title) && Truthy(input.status) &&
      IsValidStatus(input.status.value)
    ensures !(Truthy(input.company) && Truthy(input.title) && Truthy(input.status)) ==>
      r == Some(RequiredFieldsError)
    ensures (Truthy(input.company) && Truthy(input.title) && Truthy(input.status) &&
             !IsValidStatus(input.status.value)) ==> r == Some(InvalidStatusError)
    ensures r != None ==> r.value in {RequiredFieldsError, InvalidStatusError}
  {
    if !Truthy(input.company) || !Truthy(input.title) || !Truthy(input.status) then
      Some(RequiredFieldsError)
    else if !IsValidStatus(input.status.value) then
      Some(InvalidStatusError)
    else
      None
  }

  /** `notes ? notes.trim() : ''` */
  function NotesOrEmpty(notes: Option<string>): (r: string)
    ensures r == [] || (!IsWhitespace(r[0]) && !IsWhitespace(r[|r| - 1]))
    ensures r == [] <==>
      (notes == None || forall i :: 0 <= i < |notes.value| ==> IsWhitespace(notes.value[i]))
    ensures r != [] ==> exists a :: SliceBetweenWhitespace(notes.value, a, r)
  {
    if Truthy(notes) then Trim(notes.value) else ""
  }

  /** The record a valid create request produces. */
  function NewJob(id: nat, input: JobInput, today: string, now: string): (j: Job)
    requires ValidationError(input) == None
    ensures j.id == id && j.createdAt == now && j.updatedAt == None
    ensures j.company == Trim(input.company.value) && j.title == Trim(input.title.value)
    ensures j.status in CanonicalStatuses && Lower(j.status) == Lower(input.status.value)
    ensures j.applicationDate == if Truthy(input.applicationDate) then input.applicationDate.value else today
    ensures j.notes == if Truthy(input.notes) then Trim(input.notes.value) else ""
  {
    CanonicalizeValid(input.status.value);
    Job(id,
        Trim(input.company.value),
        Trim(input.title.value),
        Canonicalize(input.status.value),
        if Truthy(input.applicationDate) then input.applicationDate.value else today,
        NotesOrEmpty(input.notes),
        now,
        None)
  }

  /** The record a valid update request makes of the stored one: id and
      createdAt are kept, the application date falls back to the stored one,
      the notes are reset when omitted, and updatedAt is set. */
  function Revised(old_: Job, input: JobInput, now: string): (j: Job)
    requires ValidationError(input) == None
    ensures j.id == old_.id && j.createdAt == old_.createdAt && j.updatedAt == Some(now)
    ensures j.company == Trim(input.company.value) && j.title == Trim(input.title.value)
    ensures j.status in CanonicalStatuses && Lower(j.status) == Lower(input.status.value)
    ensures j.applicationDate ==
      if Truthy(input.applicationDate) then input.applicationDate.value else old_.applicationDate
    ensures j.notes == if Truthy(input.notes) then Trim(input.notes.value) else ""
  {
    CanonicalizeValid(input.status.value);
    old_.(
      company := Trim(input.company.value),
      title := Trim(input.title.value),
      status := Canonicalize(input.status.value),
      applicationDate := if Truthy(input.applicationDate) then input.applicationDate.value else old_.applicationDate,
      notes := NotesOrEmpty(input.notes),
      updatedAt := Some(now))
  }

  /** A body whose company is only spaces passes the presence check, and the
      job is stored with an empty company. */
  lemma BlankCompanyStoredEmpty(today: string, now: string)
    ensures ValidationError(JobInput(Some("   "), Some("Eng"), Some("applied"), None, None)) == None
    ensures NewJob(1, JobInput(Some("   "), Some("Eng"), Some("applied"), None, None), today, now).company == ""
  {
    assert Lower("applied") == "applied";
    assert forall i :: 0 <= i < |"   "| ==> IsWhitespace("   "[i]);
    assert Trim("   ") == "";
  }

  // ------------------------------------------------------------ queries

  /** `jobs.filter(job => job.status.toLowerCase() === status.toLowerCase())`:
      exactly the jobs whose status matches, case-insensitively. */
  function FilterByStatus(jobs: seq<Job>, status: string): (r: seq<Job>)
    ensures |r| <= |jobs|
    ensures forall j :: j in r ==> j in jobs && Lower(j.status) == Lower(status)
    ensures forall j :: j in jobs && Lower(j.status) == Lower(status) ==> j in r
  {
    if jobs == [] then []
    else
      (if Lower(jobs[0].status) == Lower(status) then [jobs[0]] else []) +
      FilterByStatus(jobs[1..], status)
  }

  /** Filtering keeps the stored order: filtering a concatenation is the
      concatenation of the filtered parts. */
  lemma {:induction false} FilterByStatusAppend(a: seq<Job>, b: seq<Job>, status: string)
    ensures FilterByStatus(a + b, status) == FilterByStatus(a, status) + FilterByStatus(b, status)
  {
    if a == [] {
      assert a + b == b;
    } else {
      assert (a + b)[0] == a[0];
      assert (a + b)[1..] == a[1..] + b;
      FilterByStatusAppend(a[1..], b, status);
      var head := if Lower(a[0].status) == Lower(status) then [a[0]] else [];
      calc {
        FilterByStatus(a + b, status);
        head + FilterByStatus(a[1..] + b, status);
        head + (FilterByStatus(a[1..], status) + FilterByStatus(b, status));
        (head + FilterByStatus(a[1..], status)) + FilterByStatus(b, status);
      }
    }
  }

  /** A job just created is listed last under the status the request spelled,
      in any case. */
  lemma CreatedJobListedLast(jobs: seq<Job>, job: Job, status: string)
    requires Lower(job.status) == Lower(status)
    ensures FilterByStatus(jobs + [job], status) == FilterByStatus(jobs, status) + [job]
  {
    FilterByStatusAppend(jobs, [job], status);
    assert [job][1..] == [];
  }

  /** `jobs.findIndex(job => job.id === parseInt(id))`: the first position
      holding the id, None when the id is NaN or absent. */
  function FindIndexById(jobs: seq<Job>, id: Option<int>): (r: Option<nat>)
    ensures r == None <==> id == None || forall i :: 0 <= i < |jobs| ==> jobs[i].id != id.value
    ensures r != None ==>
      r.value < |jobs| && jobs[r.value].id == id.value &&
      forall i :: 0 <= i < r.value ==> jobs[i].id != id.value
  {
    if id == None || jobs == [] then None
    else if jobs[0].id == id.value then Some(0)
    else
      match FindIndexById(jobs[1..], id)
      case None => None
      case Some(k) => Some(k + 1)
  }

  /** Ids strictly increase along the list, so each appears once. */
  ghost predicate IdsIncreasing(jobs: seq<Job>) {
    forall i, j :: 0 <= i < j < |jobs| ==> jobs[i].id < jobs[j].id
  }

  /** Appending a record whose id exceeds every stored one keeps the ids
      increasing. */
  lemma AppendKeepsIdsIncreasing(jobs: seq<Job>, job: Job)
    requires IdsIncreasing(jobs)
    requires forall i :: 0 <= i < |jobs| ==> jobs[i].id < job.id
    ensures IdsIncreasing(jobs + [job])
  {
  }

  /** Removing one record keeps the ids increasing. */
  lemma RemoveKeepsIdsIncreasing(jobs: seq<Job>, k: nat)
    requires IdsIncreasing(jobs) && k < |jobs|
    ensures IdsIncreasing(jobs[..k] + jobs[k + 1..])
  {
    var rest := jobs[..k] + jobs[k + 1..];
    forall i, j | 0 <= i < j < |rest| ensures rest[i].id < rest[j].id {
      var i' := if i < k then i else i + 1;
      var j' := if j < k then j else j + 1;
      assert rest[i] == jobs[i'] && rest[j] == jobs[j'];
    }
  }

  /** The id the create route echoed, written into the URL of a later update
      or delete, finds that record. */
  lemma FindByEchoedId(jobs: seq<Job>, k: nat)
    requires IdsIncreasing(jobs) && k < |jobs|
    ensures FindIndexById(jobs, ParseInt(DecimalString(jobs[k].id))) == Some(k)
  {
    ParseIntDecimal(jobs[k].id, []);
    assert DecimalString(jobs[k].id) + [] == DecimalString(jobs[k].id);
  }

  // ------------------------------------------------------------ the store

  /** Ids increase along the list and lie below the counter, and every stored
      status is one of the four canonical spellings. */
  ghost predicate StoreInvariant(jobs: seq<Job>, nextId: nat) {
    1 <= nextId &&
    IdsIncreasing(jobs) &&
    (forall i :: 0 <= i < |jobs| ==> 1 <= jobs[i].id < nextId) &&
    (forall i :: 0 <= i < |jobs| ==> jobs[i].status in CanonicalStatuses)
  }

  /** Create keeps the invariant: the new record takes the counter's value
      and the counter moves past it. */
  lemma AppendKeepsStoreInvariant(jobs: seq<Job>, nextId: nat, job: Job)
    requires StoreInvariant(jobs, nextId)
    requires job.id == nextId && job.status in CanonicalStatuses
    ensures StoreInvariant(jobs + [job], nextId + 1)
  {
    AppendKeepsIdsIncreasing(jobs, job);
    var after := jobs + [job];
    forall i | 0 <= i < |after| ensures 1 <= after[i].id < nextId + 1 && after[i].status in CanonicalStatuses {
      if i < |jobs| {
        assert after[i] == jobs[i];
      }
    }
  }

  /** Update keeps the invariant: the revision keeps the id and has a
      canonical status. */
  lemma ReplaceKeepsStoreInvariant(jobs: seq<Job>, nextId: nat, k: nat, job: Job)
    requires StoreInvariant(jobs, nextId) && k < |jobs|
    requires job.id == jobs[k].id && job.status in CanonicalStatuses
    ensures StoreInvariant(jobs[k := job], nextId)
  {
  }

  /** Delete keeps the invariant, and the removed id is no longer stored. */
  lemma RemoveKeepsStoreInvariant(jobs: seq<Job>, nextId: nat, k: nat)
    requires StoreInvariant(jobs, nextId) && k < |jobs|
    ensures StoreInvariant(jobs[..k] + jobs[k + 1..], nextId)
    ensures forall j :: j in jobs[..k] + jobs[k + 1..] ==> j.id != jobs[k].id
  {
    RemoveKeepsIdsIncreasing(jobs, k);
    var rest := jobs[..k] + jobs[k + 1..];
    forall i | 0 <= i < |rest|
      ensures rest[i] == jobs[if i < k then i else i + 1]
    {
    }
  }

  /** The module-level `jobs` array and `nextId` counter. */
  class JobStore {
    var jobs: seq<Job>
    var nextId: nat

    /** Ids increase along the list and lie below the counter, and every
        stored status is one of the four canonical spellings. */
    ghost predicate Valid()
      reads this
    {
      StoreInvariant(jobs, nextId)
    }

    /** The state at module load: no jobs, next id 1. */
    constructor ()
      ensures Valid() && jobs == [] && nextId == 1
    {
      jobs := [];
      nextId := 1;
    }

    /** GET /: the whole store in insertion order, or, when a status other
        than "all" is given, the jobs whose status matches it. */
    method List(status: Option<string>) returns (r: seq<Job>)
      requires Valid()
      ensures !Truthy(status) || status.value == "all" ==> r == jobs
      ensures Truthy(status) && status.value != "all" ==>
        (forall j :: j in r <==> j in jobs && Lower(j.status) == Lower(status.value)) &&
        r == FilterByStatus(jobs, status.value)
      ensures jobs == [] ==> r == []
    {
      r := jobs;
      if Truthy(status) && status.value != "all" {
        r := FilterByStatus(jobs, status.value);
      }
    }

    /** POST /: a rejected body changes nothing; an accepted one is appended
        under the current counter value, which then goes up by one. */
    method Create(input: JobInput, today: string, now: string) returns (r: JobReply)
      requires Valid()
      modifies this
      ensures Valid()
      ensures ValidationError(input) != None ==>
        r == BadRequest(ValidationError(input).value) &&
        jobs == old(jobs) && nextId == old(nextId)
      ensures ValidationError(input) == None ==>
        r == Created(NewJob(old(nextId), input, today, now)) &&
        jobs == old(jobs) + [r.job] && nextId == old(nextId) + 1
    {
      var error := ValidationError(input);
      if error != None {
        return BadRequest(error.value);
      }
      var job := NewJob(nextId, input, today, now);
      AppendKeepsStoreInvariant(jobs, nextId, job);
      nextId := nextId + 1;
      jobs := jobs + [job];
      r := Created(job);
    }

    /** PUT /:id: an unknown id is answered 404 before the body is looked
        at; a rejected body changes nothing; otherwise the record at that
        position alone is replaced by its revision. */
    method Update(id: string, input: JobInput, now: string) returns (r: JobReply)
      requires Valid()
      modifies this
      ensures Valid() && nextId == old(nextId)
      ensures FindIndexById(old(jobs), ParseInt(id)) == None ==>
        r == NotFound(JobNotFoundError) && jobs == old(jobs)
      ensures FindIndexById(old(jobs), ParseInt(id)) != None && ValidationError(input) != None ==>
        r == BadRequest(ValidationError(input).value) && jobs == old(jobs)
      ensures FindIndexById(old(jobs), ParseInt(id)) != None && ValidationError(input) == None ==>
        var k := FindIndexById(old(jobs), ParseInt(id)).value;
        r == Updated(Revised(old(jobs)[k], input, now)) && jobs == old(jobs)[k := r.job]
    {
      var found := FindIndexById(jobs, ParseInt(id));
      if found == None {
        return NotFound(JobNotFoundError);
      }
      var error := ValidationError(input);
      if error != None {
        return BadRequest(error.value);
      }
      var k := found.value;
      var job := Revised(jobs[k], input, now);
      ReplaceKeepsStoreInvariant(jobs, nextId, k, job);
      jobs := jobs[k := job];
      r := Updated(job);
    }

    /** DELETE /:id: an unknown id changes nothing; otherwise exactly that
        record is removed and returned, the others keeping their order. */
    method Delete(id: string) returns (r: JobReply)
      requires Valid()
      modifies this
      ensures Valid() && nextId == old(nextId)
      ensures FindIndexById(old(jobs), ParseInt(id)) == None ==>
        r == NotFound(JobNotFoundError) && jobs == old(jobs)
      ensures FindIndexById(old(jobs), ParseInt(id)) != None ==>
        var k := FindIndexById(old(jobs), ParseInt(id)).value;
        r == Deleted(DeletedMessage, old(jobs)[k]) &&
        jobs == old(jobs)[..k] + old(jobs)[k + 1..] &&
        |jobs| == |old(jobs)| - 1 &&
        forall j :: j in jobs ==> j.id != r.job.id
    {
      var found := FindIndexById(jobs, ParseInt(id));
      if found == None {
        return NotFound(JobNotFoundError);
      }
      var k := found.value;
      var job := jobs[k];
      RemoveKeepsStoreInvariant(jobs, nextId, k);
      jobs := jobs[..k] + jobs[k + 1..];
      r := Deleted(DeletedMessage, job);
    }

    /** resetJobs: back to the state at module load. */
    method Reset()
      modifies this
      ensures Valid() && jobs == [] && nextId == 1
    {
      jobs := [];
      nextId := 1;
    }
  }
}
