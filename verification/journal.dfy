/** `ProgressJournalViewModel`: the list of jobs shown to the user, updated
    from progress reports, and the two summary properties derived from it
    (whether the list is empty, and the text above it). */
module Journal {
  import opened Common
  import opened Text
  import opened Exceptions
  import opened Jobs

  /** One row of the list: the job, its percent and its state. */
  datatype JobEntry = JobEntry(id: JobId, percentage: real, state: JobState)

  datatype Journal = Journal(entries: seq<JobEntry>, isEmpty: bool, topText: string)

  const Initial: Journal := Journal([], true, "")

  /** No two rows show the same job. */
  predicate UniqueIds(es: seq<JobEntry>)
  {
    forall i, j :: 0 <= i < j < |es| ==> es[i].id != es[j].id
  }

  predicate Listed(es: seq<JobEntry>, id: JobId)
  {
    exists i :: 0 <= i < |es| && es[i].id == id
  }

  // ------------------------------------------------------------ Refresh

  predicate Active(e: JobEntry)
  {
    e.state == Queued || e.state == Running
  }

  /** The number of rows that are queued or running. */
  function CountActive(es: seq<JobEntry>): (n: nat)
    ensures n <= |es|
    ensures n == 0 <==> forall i :: 0 <= i < |es| ==> !Active(es[i])
    decreases |es|
  {
    if es == [] then 0
    else
      var rest := CountActive(es[1..]);
      assert forall i :: 1 <= i < |es| ==> es[i] == es[1..][i - 1];
      (if Active(es[0]) then 1 else 0) + rest
  }

  /** `Refresh`: the list is empty or not, and the text counts the jobs in
      progress when there are any, and all jobs otherwise. */
  function Refresh(es: seq<JobEntry>): (j: Journal)
    ensures j.entries == es
    ensures j.isEmpty <==> |es| == 0
  {
    var n := CountActive(es);
    Journal(es, |es| == 0, if n != 0 then CountText("Processing", n) else CountText("All", |es|))
  }

  /** A word and a count in parentheses, as in "All (3)". */
  function CountText(word: string, n: nat): string
  {
    word + " (" + NatText(n) + ")"
  }

  /** The number between the parentheses of a top text. */
  function ShownCount(text: string): Option<nat>
  {
    var inside := Before(After(text, '('), ')');
    if |inside| > 0 && AllDigits(inside) then Some(DigitsValue(inside)) else None
  }

  /** The top text says "Processing" exactly when a job is queued or running,
      and the number it shows is the count of those jobs, or of all jobs
      when none is. */
  lemma TopText(es: seq<JobEntry>)
    ensures var t := Refresh(es).topText;
            && (Before(t, ' ') == "Processing" <==> exists i :: 0 <= i < |es| && Active(es[i]))
            && (Before(t, ' ') == "All" <==> forall i :: 0 <= i < |es| ==> !Active(es[i]))
            && ShownCount(t) == Some(if CountActive(es) != 0 then CountActive(es) else |es|)
  {
    var n := CountActive(es);
    var word := if n != 0 then "Processing" else "All";
    var count := if n != 0 then n else |es|;
    assert Refresh(es).topText == CountText(word, count);
    Words();
    CountTextReads(word, count);
  }

  /** The two words of the top text differ and hold neither a blank nor a parenthesis. */
  lemma Words()
    ensures ' ' !in "Processing" && '(' !in "Processing"
    ensures ' ' !in "All" && '(' !in "All"
    ensures "Processing" != "All"
  {
    assert |"All"| == 3;
  }

  /** The word is the text before the first blank, and the count reads back. */
  lemma CountTextReads(word: string, n: nat)
    requires ' ' !in word && '(' !in word
    ensures Before(CountText(word, n), ' ') == word
    ensures ShownCount(CountText(word, n)) == Some(n)
  {
    var inside := ['('] + NatText(n) + [')'];
    assert CountText(word, n) == word + [' '] + inside;
    BeforeAfter(word, inside, ' ');
    assert CountText(word, n) == (word + [' ']) + "(" + NatText(n) + ")";
    CountReads(word + [' '], n);
  }

  /** After a prefix without '(', the parenthesised digits read back as n. */
  lemma CountReads(prefix: string, n: nat)
    requires '(' !in prefix
    ensures ShownCount(prefix + "(" + NatText(n) + ")") == Some(n)
  {
    var digits := NatText(n);
    NatTextRoundTrip(n);
    assert ')' !in digits;
    var t := prefix + "(" + digits + ")";
    assert t == prefix + ['('] + (digits + [')']);
    BeforeAfter(prefix, digits + [')'], '(');
    assert digits + [')'] == digits + [')'] + [];
    BeforeAfter(digits, [], ')');
  }

  // ------------------------------------------------------------ ApplyUpdate

  /** How many rows show this job. */
  function MatchCount(es: seq<JobEntry>, id: JobId): (n: nat)
    ensures n == 0 <==> !Listed(es, id)
    decreases |es|
  {
    if es == [] then 0
    else
      assert forall i :: 1 <= i < |es| ==> es[i] == es[1..][i - 1];
      (if es[0].id == id then 1 else 0) + MatchCount(es[1..], id)
  }

  /** The first row that shows this job. */
  function FirstIndex(es: seq<JobEntry>, id: JobId): (r: Option<nat>)
    ensures r.Some? <==> Listed(es, id)
    ensures r.Some? ==> r.value < |es| && es[r.value].id == id
                        && forall k :: 0 <= k < r.value ==> es[k].id != id
    decreases |es|
  {
    if es == [] then None
    else if es[0].id == id then Some(0)
    else
      assert forall i :: 1 <= i < |es| ==> es[i] == es[1..][i - 1];
      match FirstIndex(es[1..], id)
      case None => None
      case Some(k) => Some(k + 1)
  }

  /** In a list of unique rows a listed job has exactly one row. */
  lemma {:induction false} UniqueMatch(es: seq<JobEntry>, id: JobId)
    requires UniqueIds(es) && Listed(es, id)
    ensures MatchCount(es, id) == 1
    decreases |es|
  {
    var rest := es[1..];
    assert UniqueIds(rest) by {
      forall i, j | 0 <= i < j < |rest| ensures rest[i].id != rest[j].id {
        assert rest[i] == es[i + 1] && rest[j] == es[j + 1];
      }
    }
    if es[0].id == id {
      assert !Listed(rest, id) by {
        forall i | 0 <= i < |rest| ensures rest[i].id != id {
          assert rest[i] == es[i + 1];
        }
      }
    } else {
      var i :| 0 <= i < |es| && es[i].id == id;
      assert rest[i - 1] == es[i];
      UniqueMatch(rest, id);
    }
  }

  /** `Jobs.Single(x => x.JobId == id)`: the one matching row, or an
      `InvalidOperationException` when there is none or more than one. */
  function Single(es: seq<JobEntry>, id: JobId): (r: Result<nat, Fault>)
    ensures r.Success? <==> MatchCount(es, id) == 1
    ensures r.Success? ==> r.value < |es| && es[r.value].id == id
    ensures r.Failure? ==> r.error == InvalidOperation
  {
    if MatchCount(es, id) == 1 then Success(FirstIndex(es, id).value) else Failure(InvalidOperation)
  }

  /** `ApplyUpdate`: a Queued report for a job not in the list adds a row;
      any other report overwrites percent and state of the job's single row,
      and throws when the job does not have exactly one. */
  function ApplyUpdate(j: Journal, id: JobId, p: JobProgress): (r: Result<Journal, Fault>)
    ensures r.Failure? <==> !(p.state == Queued && !Listed(j.entries, id)) && MatchCount(j.entries, id) != 1
    ensures r.Failure? ==> r.error == InvalidOperation
    ensures p.state == Queued && !Listed(j.entries, id)
            ==> r.Success? && r.value.entries == j.entries + [JobEntry(id, p.percent, p.state)]
    ensures r.Success? && !(p.state == Queued && !Listed(j.entries, id))
            ==> && |r.value.entries| == |j.entries|
                && forall k :: 0 <= k < |j.entries| ==>
                     && r.value.entries[k].id == j.entries[k].id
                     && (j.entries[k].id != id ==> r.value.entries[k] == j.entries[k])
                     && (j.entries[k].id == id ==> r.value.entries[k].percentage == p.percent
                                                   && r.value.entries[k].state == p.state)
    ensures r.Success? ==> r.value == Refresh(r.value.entries)
  {
    if p.state == Queued && !Listed(j.entries, id) then
      Success(Refresh(j.entries + [JobEntry(id, p.percent, p.state)]))
    else
      match Single(j.entries, id)
      case Failure(e) => Failure(e)
      case Success(i) =>
        OnlyMatch(j.entries, id, i);
        Success(Refresh(j.entries[i := j.entries[i].(percentage := p.percent, state := p.state)]))
  }

  /** The row Single picks is the only one with its id. */
  lemma OnlyMatch(es: seq<JobEntry>, id: JobId, i: nat)
    requires MatchCount(es, id) == 1 && i < |es| && es[i].id == id
    ensures forall k :: 0 <= k < |es| && k != i ==> es[k].id != id
  {
    forall k | 0 <= k < |es| && k != i
      ensures es[k].id != id
    {
      if es[k].id == id {
        TwoMatches(es, id, i, k);
      }
    }
  }

  lemma {:induction false} TwoMatches(es: seq<JobEntry>, id: JobId, i: nat, k: nat)
    requires i < |es| && k < |es| && i != k && es[i].id == id && es[k].id == id
    ensures MatchCount(es, id) >= 2
    decreases |es|
  {
    var rest := es[1..];
    if i == 0 {
      assert rest[k - 1] == es[k];
      assert Listed(rest, id);
    } else if k == 0 {
      assert rest[i - 1] == es[i];
      assert Listed(rest, id);
    } else {
      assert rest[i - 1] == es[i] && rest[k - 1] == es[k];
      TwoMatches(rest, id, i - 1, k - 1);
    }
  }

  /** Updates keep the rows unique, and with unique rows an update fails
      exactly for a job that is not listed and is not reported Queued. */
  lemma UpdateKeepsUnique(j: Journal, id: JobId, p: JobProgress)
    requires UniqueIds(j.entries)
    ensures ApplyUpdate(j, id, p).Success? ==> UniqueIds(ApplyUpdate(j, id, p).value.entries)
    ensures ApplyUpdate(j, id, p).Failure? <==> p.state != Queued && !Listed(j.entries, id)
  {
    if Listed(j.entries, id) {
      UniqueMatch(j.entries, id);
    }
    if ApplyUpdate(j, id, p).Success? {
      var es := ApplyUpdate(j, id, p).value.entries;
      if p.state == Queued && !Listed(j.entries, id) {
        assert forall i :: 0 <= i < |j.entries| ==> es[i] == j.entries[i];
      }
    }
  }

  /** A report for a job that is not listed, other than Queued, fails. */
  lemma UnknownJobFails(j: Journal, id: JobId, p: JobProgress)
    requires !Listed(j.entries, id) && p.state != Queued
    ensures ApplyUpdate(j, id, p) == Failure(InvalidOperation)
  {
  }

  // ------------------------------------------------------------ commands

  /** The list without the first row of a job. */
  function RemoveFirst(es: seq<JobEntry>, id: JobId): (r: seq<JobEntry>)
    ensures !Listed(es, id) ==> r == es
    ensures Listed(es, id) ==> |r| == |es| - 1
    ensures Listed(es, id) ==> var i := FirstIndex(es, id).value; r == es[..i] + es[i + 1..]
  {
    match FirstIndex(es, id)
    case None => es
    case Some(i) => es[..i] + es[i + 1..]
  }

  /** What a command does: the journal afterwards and the job whose token it cancelled. */
  datatype Command = Command(journal: Journal, cancelled: Option<JobId>)

  /** `RemoveCmd` with the row it was invoked for (null when none): cancel
      that job, remove its row, refresh. */
  function RemoveCmd(j: Journal, vm: Option<JobId>): (c: Command)
    requires UniqueIds(j.entries)
    ensures c.cancelled == vm
    ensures c.journal == Refresh(c.journal.entries)
    ensures UniqueIds(c.journal.entries)
    ensures vm.Some? ==> !Listed(c.journal.entries, vm.value)
    ensures vm.Some? ==> forall e :: e in j.entries && e.id != vm.value <==> e in c.journal.entries
    ensures vm.None? ==> c.journal.entries == j.entries
  {
    if vm.Some? then
      var es := RemoveFirst(j.entries, vm.value);
      RemovedRow(j.entries, vm.value);
      Command(Refresh(es), vm)
    else Command(Refresh(j.entries), None)
  }

  lemma RemovedRow(es: seq<JobEntry>, id: JobId)
    requires UniqueIds(es)
    ensures var r := RemoveFirst(es, id);
            UniqueIds(r) && !Listed(r, id) && forall e :: e in es && e.id != id <==> e in r
  {
    if Listed(es, id) {
      var i := FirstIndex(es, id).value;
      var r := es[..i] + es[i + 1..];
      Shifted(es, i);
      forall a, b | 0 <= a < b < |r| ensures r[a].id != r[b].id {
        var a', b' := if a < i then a else a + 1, if b < i then b else b + 1;
        assert r[a] == es[a'] && r[b] == es[b'];
      }
      forall k | 0 <= k < |r| ensures r[k].id != id {
        var k' := if k < i then k else k + 1;
        assert r[k] == es[k'];
      }
      forall e | e in r ensures e in es && e.id != id {
        var k :| 0 <= k < |r| && r[k] == e;
        var k' := if k < i then k else k + 1;
        assert r[k] == es[k'];
      }
      forall e | e in es && e.id != id ensures e in r {
        var k :| 0 <= k < |es| && es[k] == e;
        if k < i { assert r[k] == e; } else { assert r[k - 1] == e; }
      }
    }
  }

  /** Removing row i moves the rows after it up by one. */
  lemma Shifted(es: seq<JobEntry>, i: nat)
    requires i < |es|
    ensures var r := es[..i] + es[i + 1..];
            |r| == |es| - 1 && forall k :: 0 <= k < |r| ==> r[k] == es[if k < i then k else k + 1]
  {
  }

  /** `CancelCmd`: cancel the job, keep its row, refresh. */
  function CancelCmd(j: Journal, vm: Option<JobId>): (c: Command)
    ensures c.cancelled == vm
    ensures c.journal.entries == j.entries
    ensures c.journal == Refresh(j.entries)
  {
    Command(Refresh(j.entries), vm)
  }
}
