/**
 * The progress record of a background fetch (`DataFetchProgress`) and the
 * table that stores such records.
 */
module FetchProgress {
  import opened Common

  datatype CompletionStatus = SUCCESS | DUPLICATES | FAILURE

  class DataFetchProgress {
    var id: Option<nat>
    var howManyFetched: int
    var howManyToFetch: int
    var completionMessage: Option<string>
    var isComplete: bool
    var status: Option<CompletionStatus>
    var duplicates: Option<seq<string>>
    var unableToCheckDuplicates: Option<map<string, string>>

    /** A new record: counters at -1, not complete, no status, nothing recorded. */
    constructor ()
      ensures id.None? && howManyFetched == -1 && howManyToFetch == -1
      ensures !isComplete && status.None? && completionMessage.None?
      ensures duplicates.None? && unableToCheckDuplicates.None?
    {
      id := None;
      howManyFetched := -1;
      howManyToFetch := -1;
      completionMessage := None;
      isComplete := false;
      status := None;
      duplicates := None;
      unableToCheckDuplicates := None;
    }

    method SetHowManyFetched(n: int)
      modifies this`howManyFetched
      ensures howManyFetched == n
    {
      howManyFetched := n;
    }

    method SetHowManyToFetch(n: int)
      modifies this`howManyToFetch
      ensures howManyToFetch == n
    {
      howManyToFetch := n;
    }

    method SetCompletionMessage(m: Option<string>)
      modifies this`completionMessage
      ensures completionMessage == m
    {
      completionMessage := m;
    }

    method SetIsComplete(b: bool)
      modifies this`isComplete
      ensures isComplete == b
    {
      isComplete := b;
    }

    method SetStatus(s: Option<CompletionStatus>)
      modifies this`status
      ensures status == s
    {
      status := s;
    }

    method SetDuplicates(d: Option<seq<string>>)
      modifies this`duplicates
      ensures duplicates == d
    {
      duplicates := d;
    }

    method SetUnableToCheckDuplicates(u: Option<map<string, string>>)
      modifies this`unableToCheckDuplicates
      ensures unableToCheckDuplicates == u
    {
      unableToCheckDuplicates := u;
    }

    /** `setFailure(m)`: message set, complete, status FAILURE; the counters are untouched. */
    method SetFailure(m: string)
      modifies this`completionMessage, this`isComplete, this`status
      ensures completionMessage == Some(m) && isComplete && status == Some(FAILURE)
    {
      SetCompletionMessage(Some(m));
      SetIsComplete(true);
      SetStatus(Some(FAILURE));
    }
  }

  /** The stored progress records; a record's id is its row index. */
  class ProgressStore {
    var records: seq<DataFetchProgress>

    predicate Valid()
      reads this, records
    {
      forall i :: 0 <= i < |records| ==> records[i].id == Some(i)
    }

    constructor ()
      ensures Valid() && records == []
    {
      records := [];
    }

    /** `save`: a new record gets the next id and is stored; a stored one keeps its id. */
    method Save(p: DataFetchProgress)
      requires Valid()
      modifies this, p`id
      ensures Valid()
      ensures old(p.id).None? ==> records == old(records) + [p] && p.id == Some(|old(records)|)
      ensures old(p.id).Some? ==> records == old(records) && p.id == old(p.id)
    {
      if p.id.None? {
        p.id := Some(|records|);
        records := records + [p];
      }
    }
  }
}
