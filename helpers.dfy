/** Small pure helpers of src/utils/helpers.ts: address validation, points and
    gas totals over completed challenges, and the challenge search filter. */
module Helpers {
  import opened Basics
  import opened Records

  // ------------------------------------------------------------- addresses

  predicate HexDigit(c: char) {
    '0' <= c <= '9' || 'a' <= c <= 'f' || 'A' <= c <= 'F'
  }

  /** `/^0x[a-fA-F0-9]{40}$/`: "0x" and exactly forty hexadecimal digits of
      either case. */
  predicate IsValidAddress(s: string) {
    |s| == 42 && s[..2] == "0x" && forall i :: 2 <= i < 42 ==> HexDigit(s[i])
  }

  /** The verdict of an input validator: accepted, or the message shown. */
  datatype Verdict = Accepted | Rejected(message: string)

  /** `isValidAddressOrENS`: a value ending in ".eth" is judged by the ENS
      lookup (given here as its outcome), any other value by the address
      pattern. */
  function IsValidAddressOrEns(value: string, ensResolves: bool): (v: Verdict)
    ensures EndsWith(value, ".eth") ==> (v == Accepted <==> ensResolves)
    ensures !EndsWith(value, ".eth") ==> (v == Accepted <==> IsValidAddress(value))
    ensures v.Rejected? ==> v.message == (if EndsWith(value, ".eth") then "Invalid ENS name" else "Invalid address")
  {
    if EndsWith(value, ".eth") then (if ensResolves then Accepted else Rejected("Invalid ENS name"))
    else if IsValidAddress(value) then Accepted
    else Rejected("Invalid address")
  }

  /** A well-formed address never takes the ENS branch, so it is accepted
      whatever the lookup would say. */
  lemma AddressNeverEns(value: string, ensResolves: bool)
    requires IsValidAddress(value)
    ensures !EndsWith(value, ".eth")
    ensures IsValidAddressOrEns(value, ensResolves) == Accepted
  {
    assert value[38] != '.' && value[38] == value[38..][0];
  }

  /** Lower-casing keeps an address valid ... */
  lemma AddressLowerCase(s: string)
    requires IsValidAddress(s)
    ensures IsValidAddress(Lower(s))
  {
    var l := Lower(s);
    assert l[..2] == [LowerChar(s[0]), LowerChar(s[1])];
    assert s[0] == s[..2][0] && s[1] == s[..2][1];
  }

  /** ... but the pattern is case-sensitive on the "0x" prefix: "0X" followed
      by forty digits is rejected although its lower-case form is accepted. */
  lemma UpperPrefixRejected()
    ensures var s := "0X" + seq(40, _ => '0');
      !IsValidAddress(s) && IsValidAddress(Lower(s))
  {
    var digits := seq(40, _ => '0');
    var s := "0X" + digits;
    assert s[..2][1] == 'X';
    var l := Lower(s);
    assert l[..2] == "0x" by {
      assert l[0] == LowerChar(s[0]) == '0';
      assert l[1] == LowerChar(s[1]) == 'x';
    }
    forall i | 2 <= i < 42 ensures HexDigit(l[i]) {
      assert s[i] == digits[i - 2] == '0';
    }
  }

  // ---------------------------------------------------------------- points

  const PointsPerLevel: seq<nat> := [100, 150, 225, 300, 400, 500]

  /** `pointsPerLevel[level - 1] || 100`: the table for levels 1 to 6, 100
      outside it. */
  function LevelPoints(level: int): (p: nat)
    ensures 100 <= p <= 500
    ensures 1 <= level <= 6 ==> p == PointsPerLevel[level - 1]
    ensures !(1 <= level <= 6) ==> p == 100
  {
    if 1 <= level <= 6 then PointsPerLevel[level - 1] else 100
  }

  /** A completed challenge as the helpers receive it: the catalog record (when
      the name resolved) and the completion record (when present). */
  datatype CompletedItem = CompletedItem(challenge: Option<ChallengeRecord>, completion: Option<CompletionRecord>)

  /** `calculatePoints`: entries without a catalog record are skipped, the
      others summed by level. */
  function CalculatePoints(items: seq<CompletedItem>): nat {
    if items == [] then 0
    else
      var n := |items| - 1;
      CalculatePoints(items[..n]) + (if items[n].challenge.Some? then LevelPoints(items[n].challenge.value.level) else 0)
  }

  /** The number of entries that carry a catalog record. */
  function Resolved(items: seq<CompletedItem>): (n: nat)
    ensures n <= |items|
  {
    if items == [] then 0 else Resolved(items[..|items| - 1]) + (if items[|items| - 1].challenge.Some? then 1 else 0)
  }

  /** Every resolved entry earns between 100 and 500 points; the others earn
      nothing. */
  lemma {:induction false} PointsBounds(items: seq<CompletedItem>)
    ensures 100 * Resolved(items) <= CalculatePoints(items) <= 500 * Resolved(items)
  {
    if items != [] {
      PointsBounds(items[..|items| - 1]);
    }
  }

  /** The points of two lists of entries add up. */
  lemma {:induction false} PointsAppend(a: seq<CompletedItem>, b: seq<CompletedItem>)
    ensures CalculatePoints(a + b) == CalculatePoints(a) + CalculatePoints(b)
    decreases |b|
  {
    if b == [] {
      assert a + b == a;
    } else {
      var n := |b| - 1;
      assert (a + b)[..|a + b| - 1] == a + b[..n];
      PointsAppend(a, b[..n]);
    }
  }

  // ------------------------------------------------------------------- gas

  /** `reduce((sum, g) => sum + g.gasUsed, 0)` */
  function GasSum(report: seq<GasEntry>): int {
    if report == [] then 0 else GasSum(report[..|report| - 1]) + report[|report| - 1].gasUsed
  }

  lemma {:induction false} GasSumAppend(a: seq<GasEntry>, b: seq<GasEntry>)
    ensures GasSum(a + b) == GasSum(a) + GasSum(b)
    decreases |b|
  {
    if b == [] {
      assert a + b == a;
    } else {
      var n := |b| - 1;
      assert (a + b)[..|a + b| - 1] == a + b[..n];
      GasSumAppend(a, b[..n]);
    }
  }

  /** The gas of one entry: its report's sum, 0 without a completion or a
      report. */
  function ItemGas(item: CompletedItem): int {
    if item.completion.Some? && item.completion.value.gasReport.Some? then GasSum(item.completion.value.gasReport.value)
    else 0
  }

  /** `calculateTotalGasUsed` */
  function TotalGasUsed(items: seq<CompletedItem>): int {
    if items == [] then 0 else TotalGasUsed(items[..|items| - 1]) + ItemGas(items[|items| - 1])
  }

  /** All the lines of all the reports, entry after entry. */
  function AllGasEntries(items: seq<CompletedItem>): seq<GasEntry> {
    if items == [] then []
    else
      var last := items[|items| - 1];
      AllGasEntries(items[..|items| - 1]) +
      (if last.completion.Some? && last.completion.value.gasReport.Some? then last.completion.value.gasReport.value else [])
  }

  /** The total is the sum of every `gasUsed` of every report; missing
      reports contribute nothing. */
  lemma {:induction false} TotalGasIsFlatSum(items: seq<CompletedItem>)
    ensures TotalGasUsed(items) == GasSum(AllGasEntries(items))
  {
    if items != [] {
      var n := |items| - 1;
      TotalGasIsFlatSum(items[..n]);
      var last := items[n];
      var r := if last.completion.Some? && last.completion.value.gasReport.Some? then last.completion.value.gasReport.value else [];
      GasSumAppend(AllGasEntries(items[..n]), r);
    }
  }

  // ---------------------------------------------------------------- search

  /** A choice of the challenge search: the challenge name as value, its label
      as displayed name. */
  datatype SearchChoice = SearchChoice(value: string, name: string)

  /** `searchChallenges`: the enabled challenges whose label contains the
      term, both lower-cased. */
  function SearchChallenges(cs: seq<ChallengeRecord>, term: string): seq<SearchChoice> {
    if cs == [] then []
    else
      (if cs[0].enabled && Contains(Lower(cs[0].labelText), Lower(term))
       then [SearchChoice(cs[0].name, cs[0].labelText)] else []) +
      SearchChallenges(cs[1..], term)
  }

  /** The enabled challenges as choices, in catalog order. */
  function EnabledChoices(cs: seq<ChallengeRecord>): seq<SearchChoice> {
    if cs == [] then []
    else (if cs[0].enabled then [SearchChoice(cs[0].name, cs[0].labelText)] else []) + EnabledChoices(cs[1..])
  }

  /** A choice is offered exactly when some enabled challenge with that name
      and label matches the term case-insensitively. */
  lemma {:induction false} SearchMembers(cs: seq<ChallengeRecord>, term: string)
    ensures forall ch :: ch in SearchChallenges(cs, term) <==>
              exists i :: 0 <= i < |cs| && cs[i].enabled && cs[i].name == ch.value && cs[i].labelText == ch.name &&
                          Contains(Lower(cs[i].labelText), Lower(term))
  {
    if cs != [] {
      SearchMembers(cs[1..], term);
      forall ch ensures ch in SearchChallenges(cs, term) <==>
              exists i :: 0 <= i < |cs| && cs[i].enabled && cs[i].name == ch.value && cs[i].labelText == ch.name &&
                          Contains(Lower(cs[i].labelText), Lower(term))
      {
        if ch in SearchChallenges(cs[1..], term) {
          var i :| 0 <= i < |cs[1..]| && cs[1..][i].enabled && cs[1..][i].name == ch.value &&
                   cs[1..][i].labelText == ch.name && Contains(Lower(cs[1..][i].labelText), Lower(term));
          assert cs[i + 1] == cs[1..][i];
        }
        if exists i :: 0 <= i < |cs| && cs[i].enabled && cs[i].name == ch.value && cs[i].labelText == ch.name &&
                       Contains(Lower(cs[i].labelText), Lower(term)) {
          var i :| 0 <= i < |cs| && cs[i].enabled && cs[i].name == ch.value && cs[i].labelText == ch.name &&
                   Contains(Lower(cs[i].labelText), Lower(term));
          if i > 0 {
            assert cs[1..][i - 1] == cs[i];
          }
        }
      }
    }
  }

  /** The empty term keeps every enabled challenge, in order. */
  lemma {:induction false} SearchEmptyTerm(cs: seq<ChallengeRecord>)
    ensures SearchChallenges(cs, "") == EnabledChoices(cs)
  {
    if cs != [] {
      SearchEmptyTerm(cs[1..]);
      assert Contains(Lower(cs[0].labelText), Lower(""));
    }
  }
}
