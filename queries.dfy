/** The Transaction History query: the log records that name an account on
    either side, newest first. */
module Queries {
  import opened Ledger

  predicate Involves(r: Record, a: string) {
    r.fromAccount == a || r.toAccount == a
  }

  /** The records of `log` whose from_account or to_account is `a`, in reverse
      log order (the log is in commit order, so this is newest first). */
  function History(log: seq<Record>, a: string): (h: seq<Record>)
    ensures |h| <= |log|
    ensures forall r :: r in h <==> r in log && Involves(r, a)
    decreases |log|
  {
    if log == [] then []
    else
      var last, earlier := log[|log| - 1], log[..|log| - 1];
      assert log == earlier + [last];
      (if Involves(last, a) then [last] else []) + History(earlier, a)
  }

  /** With AUTOINCREMENT ids in log order, the history lists strictly
      decreasing ids: newest first, and no record twice. */
  lemma {:induction false} HistoryNewestFirst(log: seq<Record>, a: string)
    requires forall i :: 0 <= i < |log| ==> log[i].id == i + 1
    ensures forall i, j :: 0 <= i < j < |History(log, a)| ==> History(log, a)[i].id > History(log, a)[j].id
    decreases |log|
  {
    if log != [] {
      var last, earlier := log[|log| - 1], log[..|log| - 1];
      HistoryNewestFirst(earlier, a);
      var rest := History(earlier, a);
      forall r | r in rest
        ensures r.id < last.id
      {
        var k :| 0 <= k < |earlier| && earlier[k] == r;
      }
    }
  }

  /** A record appended to the log heads the history of the accounts it names
      and leaves every other account's history as it was. */
  lemma HistoryAfterAppend(log: seq<Record>, r: Record, a: string)
    ensures History(log + [r], a) == (if Involves(r, a) then [r] + History(log, a) else History(log, a))
  {
    assert (log + [r])[..|log|] == log;
  }

  /** An account that no record names has an empty history. */
  lemma {:induction false} HistoryOfUnmentioned(log: seq<Record>, a: string)
    requires forall i :: 0 <= i < |log| ==> !Involves(log[i], a)
    ensures History(log, a) == []
    decreases |log|
  {
    if log != [] {
      HistoryOfUnmentioned(log[..|log| - 1], a);
    }
  }

  /** Under the invariant, an account number that is neither an account nor
      the INITIAL sentinel has an empty history. */
  lemma UnknownHasNoHistory(t: Tables, a: string)
    requires Consistent(t)
    ensures a !in t.accounts && a != Initial ==> History(t.log, a) == []
  {
    if a in t.accounts || a == Initial {
      return;
    }
    forall i | 0 <= i < |t.log|
      ensures !Involves(t.log[i], a)
    {
      assert RecordFits(t, t.log[i]);
    }
    HistoryOfUnmentioned(t.log, a);
  }
}
