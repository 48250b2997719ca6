/** The progress view (src/utils/progress-view.ts): the user's completed
    challenges as a tree under "stats", each with its gas report sorted by
    decreasing gas use, and the points they earn. */
module ProgressView {
  import opened Basics
  import opened Records
  import opened Trees
  import opened Helpers

  /** `challenges.find(ch => ch.name === name)` */
  function FindChallenge(cs: seq<ChallengeRecord>, name: string): (r: Option<ChallengeRecord>)
    ensures r.None? <==> forall i :: 0 <= i < |cs| ==> cs[i].name != name
    ensures r.Some? ==> exists i :: 0 <= i < |cs| && cs[i] == r.value && r.value.name == name &&
                          forall j :: 0 <= j < i ==> cs[j].name != name
  {
    if cs == [] then None
    else if cs[0].name == name then Some(cs[0])
    else
      var r := FindChallenge(cs[1..], name);
      assert forall k :: 1 <= k < |cs| ==> cs[k] == cs[1..][k - 1];
      if r.Some? then
        var k :| 0 <= k < |cs| - 1 && cs[1..][k] == r.value && r.value.name == name &&
                 forall j :: 0 <= j < k ==> cs[1..][j].name != name;
        assert cs[k + 1] == cs[1..][k];
        r
      else r
  }

  /** A completion that resolved to a catalog record. */
  datatype Entry = Entry(challenge: ChallengeRecord, completion: CompletionRecord)

  /** The successful completion records, in record order, paired with the
      catalog record of the same name; records whose name is not in the
      catalog are dropped. */
  function CompletedEntries(cs: seq<ChallengeRecord>, users: seq<CompletionRecord>): seq<Entry> {
    if users == [] then []
    else
      var u := users[0];
      var found := FindChallenge(cs, u.challengeName);
      (if u.status == "success" && found.Some? then [Entry(found.value, u)] else []) + CompletedEntries(cs, users[1..])
  }

  /** An entry is listed exactly for a successful record whose name resolves,
      paired with the first catalog record of that name. */
  lemma {:induction false} CompletedEntriesMembers(cs: seq<ChallengeRecord>, users: seq<CompletionRecord>)
    ensures forall e :: e in CompletedEntries(cs, users) <==>
              e.completion in users && e.completion.status == "success" &&
              FindChallenge(cs, e.completion.challengeName) == Some(e.challenge)
  {
    if users != [] {
      CompletedEntriesMembers(cs, users[1..]);
      assert users == [users[0]] + users[1..];
    }
  }

  /** The listing keeps record order: it distributes over concatenation. */
  lemma {:induction false} CompletedEntriesAppend(cs: seq<ChallengeRecord>, a: seq<CompletionRecord>, b: seq<CompletionRecord>)
    ensures CompletedEntries(cs, a + b) == CompletedEntries(cs, a) + CompletedEntries(cs, b)
  {
    if a != [] {
      assert (a + b)[0] == a[0] && (a + b)[1..] == a[1..] + b;
      CompletedEntriesAppend(cs, a[1..], b);
    } else {
      assert a + b == b;
    }
  }

  function AsItems(es: seq<Entry>): (r: seq<CompletedItem>)
    ensures |r| == |es|
    ensures forall k :: 0 <= k < |es| ==> r[k] == CompletedItem(Some(es[k].challenge), Some(es[k].completion))
  {
    if es == [] then [] else AsItems(es[..|es| - 1]) + [CompletedItem(Some(es[|es| - 1].challenge), Some(es[|es| - 1].completion))]
  }

  /** The points of the view: every completed entry earns the points of its
      level, between 100 and 500. */
  lemma ProgressPoints(cs: seq<ChallengeRecord>, users: seq<CompletionRecord>)
    ensures var es := CompletedEntries(cs, users);
      100 * |es| <= CalculatePoints(AsItems(es)) <= 500 * |es|
  {
    var items := AsItems(CompletedEntries(cs, users));
    AllResolved(items);
    PointsBounds(items);
  }

  lemma {:induction false} AllResolved(items: seq<CompletedItem>)
    requires forall k :: 0 <= k < |items| ==> items[k].challenge.Some?
    ensures Resolved(items) == |items|
  {
    if items != [] {
      AllResolved(items[..|items| - 1]);
    }
  }

  // -------------------------------------------------------- the gas report

  predicate Descending(s: seq<GasEntry>) {
    forall i, j :: 0 <= i < j < |s| ==> s[i].gasUsed >= s[j].gasUsed
  }

  /** `x` placed after the trailing entries that use less gas than it: after
      every entry using at least as much, so equal entries keep their order. */
  function Insert(s: seq<GasEntry>, x: GasEntry): seq<GasEntry> {
    if s == [] || s[|s| - 1].gasUsed >= x.gasUsed then s + [x]
    else Insert(s[..|s| - 1], x) + [s[|s| - 1]]
  }

  /** The order `sort((a, b) => b.gasUsed - a.gasUsed)` produces: a stable
      sort by decreasing gas use. */
  function SortDesc(s: seq<GasEntry>): seq<GasEntry> {
    if s == [] then [] else Insert(SortDesc(s[..|s| - 1]), s[|s| - 1])
  }

  lemma {:induction false} InsertDescending(s: seq<GasEntry>, x: GasEntry)
    requires Descending(s)
    ensures Descending(Insert(s, x))
    ensures Insert(s, x) != [] && Insert(s, x)[|Insert(s, x)| - 1].gasUsed <= (if s == [] then x.gasUsed else s[|s| - 1].gasUsed)
  {
    if s != [] && s[|s| - 1].gasUsed < x.gasUsed {
      InsertDescending(s[..|s| - 1], x);
    }
  }

  lemma {:induction false} InsertPermutes(s: seq<GasEntry>, x: GasEntry)
    ensures multiset(Insert(s, x)) == multiset(s) + multiset{x}
  {
    if s != [] && s[|s| - 1].gasUsed < x.gasUsed {
      var n := |s| - 1;
      InsertPermutes(s[..n], x);
      assert s == s[..n] + [s[n]];
    }
  }

  /** The sorted report is in non-increasing order of gas use ... */
  lemma {:induction false} SortDescDescending(s: seq<GasEntry>)
    ensures Descending(SortDesc(s))
  {
    if s != [] {
      SortDescDescending(s[..|s| - 1]);
      InsertDescending(SortDesc(s[..|s| - 1]), s[|s| - 1]);
    }
  }

  /** ... and holds exactly the entries of the report. */
  lemma {:induction false} SortDescPermutes(s: seq<GasEntry>)
    ensures multiset(SortDesc(s)) == multiset(s)
    ensures |SortDesc(s)| == |s|
  {
    if s != [] {
      var n := |s| - 1;
      SortDescPermutes(s[..n]);
      InsertPermutes(SortDesc(s[..n]), s[n]);
      assert s == s[..n] + [s[n]];
    }
    assert |multiset(SortDesc(s))| == |multiset(s)|;
  }

  lemma {:induction false} InsertGas(s: seq<GasEntry>, x: GasEntry)
    ensures GasSum(Insert(s, x)) == GasSum(s) + x.gasUsed
  {
    if s != [] && s[|s| - 1].gasUsed < x.gasUsed {
      var n := |s| - 1;
      InsertGas(s[..n], x);
      assert Insert(s, x) == Insert(s[..n], x) + [s[n]];
      GasSumAppend(Insert(s[..n], x), [s[n]]);
      GasSumAppend(s[..n], [s[n]]);
      assert s[..n] + [s[n]] == s;
      assert [s[n]][..0] == [];
    } else {
      GasSumAppend(s, [x]);
      assert [x][..0] == [];
    }
  }

  /** Sorting does not change the total. */
  lemma {:induction false} SortDescKeepsTotal(s: seq<GasEntry>)
    ensures GasSum(SortDesc(s)) == GasSum(s)
  {
    if s != [] {
      SortDescKeepsTotal(s[..|s| - 1]);
      InsertGas(SortDesc(s[..|s| - 1]), s[|s| - 1]);
    }
  }

  /** Where the insertion stops: after position `j`, every entry uses less gas
      than `x`, and the entry before `j` at least as much. */
  lemma {:induction false} InsertAt(s: seq<GasEntry>, x: GasEntry, j: nat)
    requires j <= |s|
    requires forall k :: j <= k < |s| ==> s[k].gasUsed < x.gasUsed
    requires j == 0 || s[j - 1].gasUsed >= x.gasUsed
    ensures Insert(s, x) == s[..j] + [x] + s[j..]
    decreases |s|
  {
    if |s| == j {
      assert s[..j] == s && s[j..] == [];
    } else {
      var n := |s| - 1;
      InsertAt(s[..n], x, j);
      assert s[..n][..j] == s[..j];
      assert s[..n][j..] + [s[n]] == s[j..];
    }
  }

  /** One step of the in-place sort: the entry at `i` moves left past the
      entries that use less gas. */
  method InsertLast(a: array<GasEntry>, i: nat)
    requires i < a.Length
    modifies a
    ensures a[..i + 1] == Insert(old(a[..i]), old(a[i]))
    ensures a[i + 1..] == old(a[i + 1..])
  {
    var x := a[i];
    var j := i;
    while j > 0 && a[j - 1].gasUsed < x.gasUsed
      invariant 0 <= j <= i
      invariant forall k :: 0 <= k < j ==> a[k] == old(a[k])
      invariant forall k :: j < k <= i ==> a[k] == old(a[k - 1])
      invariant forall k :: i < k < a.Length ==> a[k] == old(a[k])
      invariant forall k :: j <= k < i ==> old(a[k]).gasUsed < x.gasUsed
    {
      a[j] := a[j - 1];
      j := j - 1;
    }
    a[j] := x;
    ghost var s := old(a[..i]);
    assert forall k :: 0 <= k < i ==> s[k] == old(a[k]);
    InsertAt(s, x, j);
    ghost var want := s[..j] + [x] + s[j..];
    forall k | 0 <= k <= i
      ensures a[k] == want[k]
    {
      if k > j {
        assert want[k] == s[k - 1];
      }
    }
  }

  /** `gasReport.sort((a, b) => b.gasUsed - a.gasUsed)`, in place. */
  method SortGasReport(a: array<GasEntry>)
    modifies a
    ensures a[..] == SortDesc(old(a[..]))
  {
    ghost var s := a[..];
    for i := 0 to a.Length
      invariant a[..i] == SortDesc(s[..i])
      invariant a[i..] == s[i..]
    {
      assert a[i] == a[i..][0] == s[i];
      assert a[i + 1..] == a[i..][1..] == s[i..][1..] == s[i + 1..];
      InsertLast(a, i);
      assert s[..i + 1][..i] == s[..i];
      assert s[..i + 1][i] == s[i];
    }
    assert a[..a.Length] == a[..] && s[..a.Length] == s;
  }

  /** The entry of one function of the report. */
  function GasEntryNode(g: GasEntry, fmt: int -> string): TreeNode {
    HeaderNode(g.functionName + ": " + fmt(g.gasUsed) + " gas", "gas-entry-" + g.functionName, false, "", [])
  }

  /** `buildGasReportNode`: one child per entry, in sorted order, and the total
      in the message. */
  function GasReportNode(report: seq<GasEntry>, fmt: int -> string): TreeNode {
    var sorted := SortDesc(report);
    HeaderNode("View Gas Report", "gas-report", false,
               "Total Gas Used: " + fmt(GasSum(sorted)) + "\nDetailed breakdown:",
               seq(|sorted|, i requires 0 <= i < |sorted| => GasEntryNode(sorted[i], fmt)))
  }

  /** The report node lists every entry once, by decreasing gas use, each
      named after its function, and announces the report's total. */
  lemma GasReportShape(report: seq<GasEntry>, fmt: int -> string)
    ensures var n := GasReportNode(report, fmt);
      var sorted := SortDesc(report);
      && n.name == "gas-report"
      && |n.children| == |report| == |sorted|
      && multiset(sorted) == multiset(report)
      && (forall i, j :: 0 <= i < j < |sorted| ==> sorted[i].gasUsed >= sorted[j].gasUsed)
      && (forall i :: 0 <= i < |sorted| ==>
            n.children[i].name == "gas-entry-" + sorted[i].functionName && n.children[i].children == [])
      && n.message == "Total Gas Used: " + fmt(GasSum(report)) + "\nDetailed breakdown:"
  {
    SortDescDescending(report);
    SortDescPermutes(report);
    SortDescKeepsTotal(report);
  }

  // -------------------------------------------------------------- the tree

  function HasGasReport(c: CompletionRecord): bool {
    c.gasReport.Some? && |c.gasReport.value| > 0
  }

  /** The node of one completed challenge: label and name from the catalog,
      the gas report as its only child when there is one. */
  function ChallengeNode(e: Entry, fmt: int -> string): TreeNode {
    HeaderNode(e.challenge.labelText, e.challenge.name, false, "",
               if HasGasReport(e.completion) then [GasReportNode(e.completion.gasReport.value, fmt)] else [])
  }

  /** `buildProgressTree` */
  function ProgressTree(cs: seq<ChallengeRecord>, users: seq<CompletionRecord>, fmt: int -> string): TreeNode {
    var es := CompletedEntries(cs, users);
    HeaderNode("Progress Stats", "stats", false, "",
               seq(|es|, i requires 0 <= i < |es| => ChallengeNode(es[i], fmt)))
  }

  /** The root "stats" lists the completed entries in order; each node takes
      label and name from the catalog and has exactly one child, the gas
      report, when its report is non-empty, and none otherwise. */
  lemma ProgressTreeShape(cs: seq<ChallengeRecord>, users: seq<CompletionRecord>, fmt: int -> string)
    ensures var t := ProgressTree(cs, users, fmt);
      var es := CompletedEntries(cs, users);
      && t.name == "stats" && t.labelText == "Progress Stats"
      && |t.children| == |es|
      && forall i :: 0 <= i < |es| ==>
           && t.children[i].labelText == es[i].challenge.labelText
           && t.children[i].name == es[i].challenge.name
           && (|t.children[i].children| == 1 <==> HasGasReport(es[i].completion))
           && (|t.children[i].children| == 0 <==> !HasGasReport(es[i].completion))
           && (HasGasReport(es[i].completion) ==> t.children[i].children[0].name == "gas-report")
  {
  }
}
