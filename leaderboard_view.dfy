/** The leaderboard view (src/utils/leaderboard-view.ts): one node per
    leaderboard position under "leaderboard", labels padded into columns, and
    a message chosen by the user's own rank. Colouring is the identity, the
    ANSI stripping is the parameter `strip` and number formatting with
    separators the parameter `fmt`. */
module LeaderboardView {
  import opened Basics
  import opened Trees

  datatype LeaderboardEntry = LeaderboardEntry(
    address: string,
    ens: Option<string>,
    challengesCompleted: int,
    points: int,
    totalGasUsed: int,
    rank: int)

  /** `entry.ens || entry.address`: a missing or empty ENS name falls back to
      the address. */
  function Identifier(e: LeaderboardEntry): (r: string)
    ensures r == e.address <==> (e.ens.None? || e.ens.value == "" || e.ens.value == e.address)
    ensures r != e.address ==> e.ens == Some(r) && r != ""
  {
    if e.ens.Some? && e.ens.value != "" then e.ens.value else e.address
  }

  /** `formatSpacing(text, width, center)`: pads `text` with spaces until its
      visible length reaches `width`, all on the left or split with the odd
      space on the left. */
  function FormatSpacing(text: string, width: int, center: bool, strip: string -> string): string {
    var totalPadding := width - JsLength(strip(text));
    if totalPadding <= 0 then text
    else if !center then Spaces(totalPadding) + text
    else Spaces((totalPadding + 1) / 2) + text + Spaces(totalPadding / 2)
  }

  /** A text already as wide as the column is returned unchanged; a narrower
      one is surrounded by spaces that bring its visible length to exactly
      the width, all on the left when not centred, and with the left part at
      most one space longer than the right when centred. */
  lemma FormatSpacingWidth(text: string, width: int, center: bool, strip: string -> string)
    ensures JsLength(strip(text)) >= width ==> FormatSpacing(text, width, center, strip) == text
    ensures JsLength(strip(text)) < width ==>
      exists left: nat, right: nat {:trigger Spaces(left), Spaces(right)} ::
        && FormatSpacing(text, width, center, strip) == Spaces(left) + text + Spaces(right)
        && JsLength(Spaces(left) + strip(text) + Spaces(right)) == width
        && (center ==> left == right || left == right + 1)
        && (!center ==> right == 0)
  {
    var visible := JsLength(strip(text));
    if visible < width {
      var pad := width - visible;
      var left: nat := if center then (pad + 1) / 2 else pad;
      var right: nat := if center then pad / 2 else 0;
      assert Spaces(0) == [];
      assert FormatSpacing(text, width, center, strip) == Spaces(left) + text + Spaces(right);
      JsLengthAppend(Spaces(left), strip(text));
      JsLengthAppend(Spaces(left) + strip(text), Spaces(right));
      JsLengthSpaces(left);
      JsLengthSpaces(right);
    }
  }

  /** The text of the rank column before padding: a medal in front of ranks 1
      to 3. */
  function RankString(rank: int): (r: string)
    ensures EndsWith(r, IntToString(rank))
    ensures |r| == |IntToString(rank)| + 2 <==> 1 <= rank <= 3
    ensures |r| == |IntToString(rank)| <==> !(1 <= rank <= 3)
  {
    var s := IntToString(rank);
    var r := if rank == 1 then "🥇 " + s
             else if rank == 2 then "🥈 " + s
             else if rank == 3 then "🥉 " + s
             else s;
    assert r[|r| - |s|..] == s;
    r
  }

  /** `getRankFormatting`: the rank string right-aligned to width 5. */
  function RankFormatting(rank: int, strip: string -> string): string {
    FormatSpacing(RankString(rank), 5, false, strip)
  }

  lemma {:induction false} JsLengthBmp(s: string)
    requires forall i :: 0 <= i < |s| ==> (s[i] as int) < 0x1_0000
    ensures JsLength(s) == |s|
  {
    if s != [] {
      JsLengthBmp(s[1..]);
    }
  }

  lemma IntToStringBmp(i: int)
    ensures JsLength(IntToString(i)) == |IntToString(i)|
  {
    var s := IntToString(i);
    if i < 0 {
      assert forall k :: 1 <= k < |s| ==> s[k] == NatToString(-i)[k - 1];
    }
    JsLengthBmp(s);
  }

  lemma ThreeDigits(n: nat)
    requires 1 <= n <= 999
    ensures |NatToString(n)| <= 3
  {
    if n >= 10 {
      assert NatToString(n) == NatToString(n / 10) + [DigitChar(n % 10)];
      if n >= 100 {
        assert NatToString(n / 10) == NatToString(n / 100) + [DigitChar((n / 10) % 10)];
      }
    }
  }

  /** With no escape codes in the rank string, the rank column is exactly
      five code units wide for ranks up to three digits: a medal counts two
      units and its space one, so ranks 1 to 3 get a single space in front,
      others "    4", "   42", "  420". */
  lemma RankColumn(rank: int, strip: string -> string)
    requires strip(RankString(rank)) == RankString(rank)
    requires 1 <= rank <= 999
    ensures |IntToString(rank)| <= 3
    ensures JsLength(RankFormatting(rank, strip)) == 5
    ensures 1 <= rank <= 3 ==> RankFormatting(rank, strip) == " " + RankString(rank)
    ensures 4 <= rank ==> RankFormatting(rank, strip) == Spaces(5 - |IntToString(rank)|) + IntToString(rank)
  {
    ThreeDigits(rank);
    if rank <= 3 {
      MedalColumn(rank, strip);
    } else {
      var s := IntToString(rank);
      IntToStringBmp(rank);
      JsLengthAppend(Spaces(5 - |s|), s);
      JsLengthSpaces(5 - |s|);
    }
  }

  lemma MedalColumn(rank: int, strip: string -> string)
    requires strip(RankString(rank)) == RankString(rank)
    requires 1 <= rank <= 3
    ensures RankFormatting(rank, strip) == " " + RankString(rank)
    ensures JsLength(" " + RankString(rank)) == 5
  {
    var s := IntToString(rank);
    assert s == [DigitChar(rank)];
    var medal := if rank == 1 then "🥇 " else if rank == 2 then "🥈 " else "🥉 ";
    var r := RankString(rank);
    assert r == medal + s;
    JsLengthAppend(medal, s);
    JsLengthAppend(" ", r);
    assert JsLength(medal) == 3 by {
      assert medal[1..] == " ";
    }
    assert Spaces(1) == " ";
  }

  /** `getEntryLabel`: rank, points, gas and the player, in columns. */
  function EntryLabel(e: LeaderboardEntry, fmt: int -> string, strip: string -> string): (r: string)
    ensures IsPrefix(RankFormatting(e.rank, strip) + "  | ", r)
    ensures EndsWith(r, " | " + Identifier(e))
  {
    var head := RankFormatting(e.rank, strip) + "  | ";
    var tail := " | " + Identifier(e);
    var r := head + FormatSpacing(fmt(e.points), 8, true, strip) + " | " +
             FormatSpacing(fmt(e.totalGasUsed), 14, true, strip) + tail;
    assert r[..|head|] == head;
    assert r[|r| - |tail|..] == tail;
    r
  }

  /** `buildEntryMessage` */
  function EntryMessage(e: LeaderboardEntry, fmt: int -> string): (r: string)
    ensures IsPrefix("Rank " + IntToString(e.rank) + "\n", r)
  {
    var head := "Rank " + IntToString(e.rank) + "\n";
    var r := head + "Points: " + fmt(e.points) +
             "\nChallenges Completed: " + IntToString(e.challengesCompleted) +
             "\nTotal Gas Used: " + fmt(e.totalGasUsed) + "\n";
    assert r[..|head|] == head;
    r
  }

  /** `getUserInfo`: the first entry whose address is exactly the user's. */
  function FindUser(board: seq<LeaderboardEntry>, user: string): (r: Option<LeaderboardEntry>)
    ensures r.None? <==> forall i :: 0 <= i < |board| ==> board[i].address != user
    ensures r.Some? ==> exists i :: 0 <= i < |board| && board[i] == r.value && r.value.address == user &&
                          forall j :: 0 <= j < i ==> board[j].address != user
  {
    if board == [] then None
    else if board[0].address == user then Some(board[0])
    else
      var r := FindUser(board[1..], user);
      assert forall k :: 1 <= k < |board| ==> board[k] == board[1..][k - 1];
      if r.Some? then
        var k :| 0 <= k < |board| - 1 && board[1..][k] == r.value && r.value.address == user &&
                 forall j :: 0 <= j < k ==> board[1..][j].address != user;
        assert board[k + 1] == board[1..][k];
        r
      else r
  }

  const KeepClimbing := "Keep challenging yourself and see if you can climb the leaderboard!"
  const KeepCatching := "Keep challenging yourself and see if you can catch up to the leader!"
  const ImproveGas := "Try to improve the gas efficiency of your past solutions."

  // Written in two pieces: the verifier does not look inside a literal this
  // long, and `StatementsDistinct` needs its first character.
  const DefaultStatement := "Complete " + "challenges to score points and climb the leaderboard!"
  const TopDog := "You are the TOP DOG!"
  const SecondPlace := "You are second place!\n" + KeepCatching + "\n" + ImproveGas
  const ThirdPlace := "You are third place!\n" + KeepCatching + "\n" + ImproveGas
  const TopTen := "You are in the top ten!\n" + KeepClimbing + "\n" + ImproveGas

  /** The statement of `buildLeaderboardMessage`'s switch. */
  function Statement(user: Option<LeaderboardEntry>): string {
    if user.None? then DefaultStatement
    else
      var rank := user.value.rank;
      if rank == 1 then TopDog
      else if rank == 2 then SecondPlace
      else if rank == 3 then ThirdPlace
      else if 4 <= rank <= 10 then TopTen
      else "You are rank " + IntToString(rank) + ".\n" + KeepClimbing
  }

  /** `buildLeaderboardMessage`: the statement, then the column header. */
  function LeaderboardMessage(board: seq<LeaderboardEntry>, user: string, strip: string -> string): string {
    Statement(FindUser(board, user)) + "\n\nTop Players\n" + ColumnTitles(strip)
  }

  /** The title row of the board's columns. */
  function ColumnTitles(strip: string -> string): string {
    FormatSpacing("Rank", 7, false, strip) + "  | " +
    FormatSpacing("Points", 8, true, strip) + " | " + FormatSpacing("Total Gas Used", 12, true, strip) + " | Player"
  }

  /** The statement depends only on the rank of the user's first entry: the
      default when the user is absent, the three podium texts, "top ten" for
      ranks 4 to 10 and "rank N" beyond. */
  lemma StatementByRank(board: seq<LeaderboardEntry>, user: string)
    ensures var s := Statement(FindUser(board, user));
      && (s == DefaultStatement <==> forall i :: 0 <= i < |board| ==> board[i].address != user)
      && (s == TopDog <==> FindUser(board, user).Some? && FindUser(board, user).value.rank == 1)
      && (s == SecondPlace <==> FindUser(board, user).Some? && FindUser(board, user).value.rank == 2)
      && (s == ThirdPlace <==> FindUser(board, user).Some? && FindUser(board, user).value.rank == 3)
      && (s == TopTen <==> FindUser(board, user).Some? && 4 <= FindUser(board, user).value.rank <= 10)
      && (FindUser(board, user).Some? && !(1 <= FindUser(board, user).value.rank <= 10) ==>
            IsPrefix("You are rank " + IntToString(FindUser(board, user).value.rank) + ".\n", s))
  {
    StatementsDistinct();
    var u := FindUser(board, user);
    if u.Some? && !(1 <= u.value.rank <= 10) {
      var head := "You are rank " + IntToString(u.value.rank) + ".\n";
      var s := Statement(u);
      assert s[..|head|] == head;
      assert s[0..8] == "You are ";
      assert s[8] == 'r';
      assert s != DefaultStatement && s != TopDog && s != SecondPlace && s != ThirdPlace && s != TopTen;
    }
  }

  /** The five fixed statements differ from each other, and from "You are
      rank N." at the ninth character. */
  lemma StatementsDistinct()
    ensures DefaultStatement[0] == 'C' && TopDog[0] == 'Y' && SecondPlace[0] == 'Y' && ThirdPlace[0] == 'Y' && TopTen[0] == 'Y'
    ensures TopDog[8] == 't' && SecondPlace[8] == 's' && ThirdPlace[8] == 't' && TopTen[8] == 'i'
    ensures TopDog[10] == 'e' && ThirdPlace[10] == 'i'
  {
    assert SecondPlace[..22] == "You are second place!\n";
    assert ThirdPlace[..21] == "You are third place!\n";
    assert TopTen[..24] == "You are in the top ten!\n";
  }

  /** With plain column titles, the header row is
      "   Rank  |  Points  | Total Gas Used | Player": "Total Gas Used" is
      wider than its column of 12 and is left as it is. */
  lemma HeaderRow(strip: string -> string)
    requires strip("Rank") == "Rank" && strip("Points") == "Points" && strip("Total Gas Used") == "Total Gas Used"
    ensures ColumnTitles(strip) == "   Rank" + "  | " + " Points " + " | " + "Total Gas Used" + " | Player"
  {
    TitleColumns(strip);
  }

  lemma TitleColumns(strip: string -> string)
    requires strip("Rank") == "Rank" && strip("Points") == "Points" && strip("Total Gas Used") == "Total Gas Used"
    ensures FormatSpacing("Rank", 7, false, strip) == "   Rank"
    ensures FormatSpacing("Points", 8, true, strip) == " Points "
    ensures FormatSpacing("Total Gas Used", 12, true, strip) == "Total Gas Used"
  {
    RankTitle(strip);
    PointsTitle(strip);
    GasTitle(strip);
  }

  lemma RankTitle(strip: string -> string)
    requires strip("Rank") == "Rank"
    ensures FormatSpacing("Rank", 7, false, strip) == "   Rank"
  {
    assert JsLength("Rank") == 4;
    assert Spaces(3) == "   ";
  }

  lemma PointsTitle(strip: string -> string)
    requires strip("Points") == "Points"
    ensures FormatSpacing("Points", 8, true, strip) == " Points "
  {
    assert JsLength("Points") == 6 by {
      JsLengthAppend("Poi", "nts");
    }
    assert Spaces(1) == " ";
  }

  lemma GasTitle(strip: string -> string)
    requires strip("Total Gas Used") == "Total Gas Used"
    ensures FormatSpacing("Total Gas Used", 12, true, strip) == "Total Gas Used"
  {
    assert JsLength("Total Gas Used") == 14 by {
      JsLengthBmp("Total Gas Used");
    }
  }

  function EntryNode(e: LeaderboardEntry, fmt: int -> string, strip: string -> string): TreeNode {
    HeaderNode(EntryLabel(e, fmt, strip), "rank-" + IntToString(e.rank), false, EntryMessage(e, fmt), [])
  }

  /** `buildLeaderboardTree` */
  function LeaderboardTree(board: seq<LeaderboardEntry>, user: string, fmt: int -> string, strip: string -> string): TreeNode {
    HeaderNode("Leaderboard", "leaderboard", false, LeaderboardMessage(board, user, strip),
               seq(|board|, i requires 0 <= i < |board| => EntryNode(board[i], fmt, strip)))
  }

  /** The root "leaderboard" has one leaf per entry, in board order, named
      after the entry's rank and labelled with its player. */
  lemma LeaderboardTreeShape(board: seq<LeaderboardEntry>, user: string, fmt: int -> string, strip: string -> string)
    ensures var t := LeaderboardTree(board, user, fmt, strip);
      && t.name == "leaderboard" && t.labelText == "Leaderboard"
      && |t.children| == |board|
      && forall i :: 0 <= i < |board| ==>
           && t.children[i].name == "rank-" + IntToString(board[i].rank)
           && t.children[i].children == []
           && EndsWith(t.children[i].labelText, " | " + Identifier(board[i]))
  {
  }
}
