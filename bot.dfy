/** The decision logic of the bot's message handler (dream11_bot.py,
    `on_message`): the rate limit, the command prefixes, each command's
    cooldown, the `!win` parse, check and schedule gate, the admin-only
    commands, and the `!tdy` listing of today's fixtures. The Discord client
    is left out: a message comes in as a value and the handler returns the
    reply it would send. */
module Dream11Bot {
  import opened Text
  import opened Seqs
  import opened Database
  import opened Utils

  // ---------------------------------------------------------------------------
  // Inputs and replies

  /** A message as the handler sees it. `fromSelf` is `message.author == client.user`. */
  datatype Message = Message(authorId: int, authorName: string, content: string, fromSelf: bool)

  /** What the handler sends back: nothing, a text, or the `!about` embed. */
  datatype Reply = NoReply | TextReply(text: string) | HelpEmbed

  /** One row of the season schedule; `date` is a day number. */
  datatype Fixture = Fixture(date: int, home: string, away: string, start: string)

  /** The season schedule, by match number. */
  type Schedule = map<int, Fixture>

  predicate ScheduledOn(schedule: Schedule, m: int, day: int) {
    m in schedule && schedule[m].date == day
  }

  // ---------------------------------------------------------------------------
  // Reply texts

  const Cross := "\U{274C} "
  const Tick := "\U{2705} "
  const RateLimitText := "\U{26A0}\U{FE0F} You're using commands too quickly. Please wait a moment."
  const UsageText := Cross + "Please specify both username and match number: `!win <username> <match_number>`"
  const BadNumberText := Cross + "Please provide a valid match number."
  const NotTodayText := Cross + "You can only record points for matches scheduled for today. Admins can record points for any match."
  const AdminOnlyText := Cross + "This command is restricted to admin users only."
  const ClearedText := Tick + "All Dream11 points have been cleared successfully."
  const NoResultsText := "No match results recorded yet!"
  const AdminLogErrorText := Cross + "Error reading match results. Please try again later."
  const NoMatchesText := "No matches scheduled for today."
  const UnexpectedText := Cross + "An unexpected error occurred. Please try again later."

  function CooldownText(seconds: int): string {
    "\U{23F3} Please wait " + IntToString(seconds) + " seconds before using this command again."
  }

  function AwardedText(username: string, m: int): string {
    Tick + "Added 1 point to " + username + " for winning Match " + IntToString(m)
  }

  // ---------------------------------------------------------------------------
  // Commands

  datatype Command = Win | D11 | Undo | ClearPoints | AdminLog | Tdy | About | NotACommand

  /** The command's name, also its cooldown key suffix. */
  function CommandName(c: Command): string
    requires c != NotACommand
  {
    match c
    case Win => "win"
    case D11 => "d11"
    case Undo => "undo"
    case ClearPoints => "clearpoints"
    case AdminLog => "adminlog"
    case Tdy => "tdy"
    case About => "about"
  }

  /** The `startswith` chain: the first command whose `!name` starts the text. */
  function CommandOf(content: string): (c: Command)
    ensures c != NotACommand ==> "!" + CommandName(c) <= content
  {
    if "!win" <= content then Win
    else if "!d11" <= content then D11
    else if "!undo" <= content then Undo
    else if "!clearpoints" <= content then ClearPoints
    else if "!adminlog" <= content then AdminLog
    else if "!tdy" <= content then Tdy
    else if "!about" <= content then About
    else NotACommand
  }

  /** No text starts with two command prefixes, so the order of the chain
      does not matter. */
  lemma PrefixesDisjoint(content: string, k1: Command, k2: Command)
    requires k1 != NotACommand && k2 != NotACommand
    requires "!" + CommandName(k1) <= content && "!" + CommandName(k2) <= content
    ensures k1 == k2
  {
    var p1, p2 := "!" + CommandName(k1), "!" + CommandName(k2);
    assert content[1] == p1[1] == p2[1];
    assert content[2] == p1[2] == p2[2];
  }

  /** A text that starts with a command's prefix runs that command. */
  lemma CommandOfComplete(content: string, k: Command)
    requires k != NotACommand && "!" + CommandName(k) <= content
    ensures CommandOf(content) == k
  {
    PrefixFound(content, k);
    PrefixesDisjoint(content, k, CommandOf(content));
  }

  lemma PrefixFound(content: string, k: Command)
    requires k != NotACommand && "!" + CommandName(k) <= content
    ensures CommandOf(content) != NotACommand
  {
    match k
    case Win => assert "!win" <= content;
    case D11 => assert "!d11" <= content;
    case Undo => assert "!undo" <= content;
    case ClearPoints => assert "!clearpoints" <= content;
    case AdminLog => assert "!adminlog" <= content;
    case Tdy => assert "!tdy" <= content;
    case About => assert "!about" <= content;
  }

  // ---------------------------------------------------------------------------
  // !win

  datatype WinDecision = Rejected(reply: string) | Accepted(username: string, matchNumber: int)

  /** `message.content[len("!win "):].strip().split()`; the slice is empty
      when the text is shorter than the prefix. */
  function WinArguments(content: string): (parts: seq<string>)
    ensures forall i :: 0 <= i < |parts| ==> |parts[i]| > 0 && NoSpace(parts[i])
  {
    Split(Strip(if |content| >= 5 then content[5..] else ""))
  }

  /** The `!win` checks in order: two arguments, an integer match number,
      `validate_input`, and, for a non-admin, a match scheduled today. */
  function DecideWin(content: string, admin: bool, schedule: Schedule, today: int): (r: WinDecision)
    ensures var parts := WinArguments(content);
      r.Accepted? <==>
        && |parts| >= 2
        && ParseInt(parts[1]).Some?
        && ValidateInput(parts[0], ParseInt(parts[1]).value).0
        && (admin || ScheduledOn(schedule, ParseInt(parts[1]).value, today))
    ensures r.Accepted? ==>
      r.username == WinArguments(content)[0] && ParseInt(WinArguments(content)[1]) == Some(r.matchNumber)
    ensures var parts := WinArguments(content);
      && (|parts| < 2 ==> r == Rejected(UsageText))
      && (|parts| >= 2 && ParseInt(parts[1]).None? ==> r == Rejected(BadNumberText))
      && (|parts| >= 2 && ParseInt(parts[1]).Some? && !ValidateInput(parts[0], ParseInt(parts[1]).value).0 ==>
            r == Rejected(Cross + ValidateInput(parts[0], ParseInt(parts[1]).value).1))
      && (|parts| >= 2 && ParseInt(parts[1]).Some? && ValidateInput(parts[0], ParseInt(parts[1]).value).0
            && !admin && !ScheduledOn(schedule, ParseInt(parts[1]).value, today) ==>
            r == Rejected(NotTodayText))
    ensures r.Accepted? && !admin ==> ScheduledOn(schedule, r.matchNumber, today)
    ensures r.Accepted? ==> IsMention(r.username) || (ValidUsername(r.username) && 1 <= r.matchNumber <= MaxMatchNumber)
  {
    var parts := WinArguments(content);
    if |parts| < 2 then Rejected(UsageText)
    else
      match ParseInt(parts[1])
      case None => Rejected(BadNumberText)
      case Some(m) =>
        var check := ValidateInput(parts[0], m);
        if !check.0 then Rejected(Cross + check.1)
        else if !admin && !ScheduledOn(schedule, m, today) then Rejected(NotTodayText)
        else Accepted(parts[0], m)
  }

  /** `!win <name> <number>` as a user types it reaches the checks with that
      name and number: it is accepted exactly when the name and number pass
      `validate_input` and the author is an admin or the match is today. */
  lemma WinCommandRoundTrip(username: string, m: int, admin: bool, schedule: Schedule, today: int)
    requires |username| > 0 && NoSpace(username)
    ensures var r := DecideWin("!win " + username + " " + IntToString(m), admin, schedule, today);
      r == if !ValidateInput(username, m).0 then Rejected(Cross + ValidateInput(username, m).1)
           else if admin || ScheduledOn(schedule, m, today) then Accepted(username, m)
           else Rejected(NotTodayText)
  {
    var number := IntToString(m);
    var content := "!win " + username + " " + number;
    var args := username + " " + number;
    assert content[5..] == args;
    assert NoSpace(number);
    assert args[0] == username[0] && args[|args| - 1] == number[|number| - 1];
    StripKeepsTrimmed(args);
    assert JoinWords([username, number]) == args by {
      assert [username, number][1..] == [number];
    }
    SplitJoinWords([username, number]);
    ParseIntOfIntToString(m);
  }

  /** An admin's `!win` naming a mention skips the range check, so match 0
      is accepted. */
  lemma AdminMentionMatchZero()
    ensures DecideWin("!win <@1> 0", true, map[], 0) == Accepted("<@1>", 0)
  {
    assert IsMention("<@1>") by {
      MentionComplete(false, "1", "");
      assert MentionText(false, "1") + "" == "<@1>";
    }
    assert ValidateInput("<@1>", 0) == (true, "");
    assert IntToString(0) == "0" by {
      assert NatToString(0) == [DigitChar(0)];
    }
    assert "!win " + "<@1>" + " " + "0" == "!win <@1> 0";
    WinCommandRoundTrip("<@1>", 0, true, map[], 0);
  }

  /** `clear_points` keeps match results of match 0, so the row such a
      `!win` records outlives `!clearpoints`. */
  lemma MatchZeroSurvivesClear(t: Tables, u: string, author: string, now: int)
    ensures MatchRow(0, u, now) in Clear(Award(t, u, 1, 0, author, now)).matchResults
  {
    var a := Award(t, u, 1, 0, author, now);
    assert a.matchResults[|t.matchResults|] == MatchRow(0, u, now);
    ClearEffect(a);
  }

  // ---------------------------------------------------------------------------
  // The ledger call each command ends in

  /** The one ledger operation a command leads to once past its cooldown, if
      any: an accepted `!win` awards 1 point, an admin's `!undo` and
      `!clearpoints` undo and clear. */
  function CallOf(cmd: Command, content: string, admin: bool, schedule: Schedule, today: int, author: string, now: int): (r: Option<LedgerOp>)
    ensures r.Some? && r.value.AwardOp? ==>
      && cmd == Win
      && r.value.delta == 1 && r.value.updatedBy == author && r.value.now == now
      && DecideWin(content, admin, schedule, today) == Accepted(r.value.username, r.value.matchNumber)
    ensures cmd == Win && DecideWin(content, admin, schedule, today).Accepted? ==> r.Some? && r.value.AwardOp?
    ensures r.Some? && (r.value.UndoOp? || r.value.ClearOp?) ==> admin
    ensures r.Some? && r.value.UndoOp? ==> cmd == Undo
    ensures r.Some? && r.value.ClearOp? ==> cmd == ClearPoints
    ensures admin && cmd == Undo ==> r == Some(UndoOp)
    ensures admin && cmd == ClearPoints ==> r == Some(ClearOp)
    ensures cmd != Win && cmd != Undo && cmd != ClearPoints ==> r == None
  {
    match cmd
    case Win =>
      (match DecideWin(content, admin, schedule, today)
       case Accepted(u, m) => Some(AwardOp(u, 1, m, author, now))
       case Rejected(_) => None)
    case Undo => if admin then Some(UndoOp) else None
    case ClearPoints => if admin then Some(ClearOp) else None
    case _ => None
  }

  /** A non-admin can change the ledger only by a `!win` for a match that is
      scheduled today. */
  lemma NonAdminCalls(cmd: Command, content: string, schedule: Schedule, today: int, author: string, now: int)
    ensures var r := CallOf(cmd, content, false, schedule, today, author, now);
      r == None || (r.value.AwardOp? && ScheduledOn(schedule, r.value.matchNumber, today))
  {
  }

  /** `is_admin` is the gate of `!undo` and `!clearpoints`: the author's id
      is in the admin list exactly when such a command leads to its ledger
      call. */
  lemma AdminOnlyCalls(authorId: int, adminIds: seq<int>, cmd: Command, content: string, schedule: Schedule, today: int, author: string, now: int)
    requires cmd == Undo || cmd == ClearPoints
    ensures var r := CallOf(cmd, content, IsAdmin(authorId, adminIds), schedule, today, author, now);
      (r.Some? && (r.value.UndoOp? || r.value.ClearOp?)) <==> authorId in adminIds
  {
  }

  /** The tables after the call, which a failing store leaves as they were. */
  function Perform(t: Tables, call: Option<LedgerOp>, store: StoreStatus): Tables {
    if store.Unavailable? || call.None? then t else Step(t, call.value)
  }

  /** Whatever messages arrive, every balance stays the sum of its user's
      history. */
  lemma PerformKeepsConsistent(t: Tables, call: Option<LedgerOp>, store: StoreStatus)
    requires Consistent(t)
    ensures Consistent(Perform(t, call, store))
    ensures forall u :: Balance(Perform(t, call, store).points, u) == SumFor(Perform(t, call, store).history, u)
  {
    if store.Available? && call.Some? {
      StepKeepsConsistent(t, call.value);
    }
    forall u ensures Balance(Perform(t, call, store).points, u) == SumFor(Perform(t, call, store).history, u) {
      BalanceIsSum(Perform(t, call, store), u);
    }
  }

  // ---------------------------------------------------------------------------
  // !adminlog

  /** One entry of the match results log. */
  function ResultBlock(r: MatchRow): string {
    "Match: " + IntToString(r.matchNumber) + "\n" + "Winner: " + r.winner + "\n"
      + "Timestamp: " + IntToString(r.timestamp) + "\n" + Repeat('-', 30) + "\n"
  }

  function ResultBlocks(results: seq<MatchRow>): string {
    if results == [] then "" else ResultBlock(results[0]) + ResultBlocks(results[1..])
  }

  /** The `!adminlog` text for the results in the order they are read. */
  function AdminLogText(results: seq<MatchRow>): (r: string)
    ensures results == [] <==> r == NoResultsText
  {
    if results == [] then NoResultsText
    else
      var r := "Match Results Log:\n\n" + ResultBlocks(results);
      assert r[0] == 'M';
      r
  }

  // ---------------------------------------------------------------------------
  // !tdy

  /** `TEAM_ACRONYMS`. */
  const TeamAcronyms: map<string, string> := map[
    "Kolkata Knight Riders" := "KKR",
    "Royal Challengers Bengaluru" := "RCB",
    "Sunrisers Hyderabad" := "SRH",
    "Rajasthan Royals" := "RR",
    "Chennai Super Kings" := "CSK",
    "Mumbai Indians" := "MI",
    "Delhi Capitals" := "DC",
    "Lucknow Super Giants" := "LSG",
    "Gujarat Titans" := "GT",
    "Punjab Kings" := "PBKS"
  ]

  /** A team as listed: its acronym when the stripped name has one, else the
      stripped name. */
  function Acronym(team: string): (r: string)
    ensures Strip(team) in TeamAcronyms ==> r == TeamAcronyms[Strip(team)]
    ensures Strip(team) !in TeamAcronyms ==> r == Strip(team)
  {
    var name := Strip(team);
    if name in TeamAcronyms then TeamAcronyms[name] else name
  }

  /** One entry of `today_matches`. */
  datatype TodayMatch = TodayMatch(matchNo: int, home: string, away: string, start: string)

  function MatchNo(m: TodayMatch): int { m.matchNo }

  function EntryFor(no: int, f: Fixture): TodayMatch {
    TodayMatch(no, Acronym(f.home), Acronym(f.away), f.start)
  }

  function MatchNumbers(rows: seq<TodayMatch>): (r: seq<int>)
    ensures |r| == |rows| && forall i :: 0 <= i < |rows| ==> r[i] == rows[i].matchNo
  {
    seq(|rows|, i requires 0 <= i < |rows| => rows[i].matchNo)
  }

  /** `rows` lists exactly the fixtures scheduled on `today`, each with its
      teams abbreviated, in ascending order of match number. */
  predicate TodayList(schedule: Schedule, today: int, rows: seq<TodayMatch>) {
    && IncreasingBy(rows, MatchNo)
    && (forall i :: 0 <= i < |rows| ==>
          ScheduledOn(schedule, rows[i].matchNo, today) && rows[i] == EntryFor(rows[i].matchNo, schedule[rows[i].matchNo]))
    && (forall no :: no in schedule && schedule[no].date == today ==> no in MatchNumbers(rows))
  }

  /** There is only one such list. */
  lemma TodayListUnique(schedule: Schedule, today: int, a: seq<TodayMatch>, b: seq<TodayMatch>)
    requires TodayList(schedule, today, a) && TodayList(schedule, today, b)
    ensures a == b
  {
    var ka, kb := MatchNumbers(a), MatchNumbers(b);
    forall x ensures x in ka <==> x in kb {
      if x in ka {
        var i :| 0 <= i < |ka| && ka[i] == x;
        assert ScheduledOn(schedule, a[i].matchNo, today);
      }
      if x in kb {
        var j :| 0 <= j < |kb| && kb[j] == x;
        assert ScheduledOn(schedule, b[j].matchNo, today);
      }
    }
    assert forall i, j :: 0 <= i < j < |ka| ==> ka[i] < ka[j] by {
      forall i, j | 0 <= i < j < |ka| ensures ka[i] < ka[j] {
        assert MatchNo(a[i]) < MatchNo(a[j]);
      }
    }
    assert forall i, j :: 0 <= i < j < |kb| ==> kb[i] < kb[j] by {
      forall i, j | 0 <= i < j < |kb| ensures kb[i] < kb[j] {
        assert MatchNo(b[i]) < MatchNo(b[j]);
      }
    }
    IncreasingSameElements(ka, kb);
    forall i | 0 <= i < |a| ensures a[i] == b[i] {
      assert ka[i] == kb[i];
    }
  }

  /** What the `!tdy` loop has gathered once the match numbers in
      `pending` are left: today's fixtures among the others, once each. */
  predicate Collected(schedule: Schedule, today: int, found: seq<TodayMatch>, pending: set<int>) {
    && (forall i :: 0 <= i < |found| ==>
          && ScheduledOn(schedule, found[i].matchNo, today) && found[i].matchNo !in pending
          && found[i] == EntryFor(found[i].matchNo, schedule[found[i].matchNo]))
    && (forall no :: no in schedule && schedule[no].date == today && no !in pending ==> no in MatchNumbers(found))
    && DistinctBy(found, MatchNo)
  }

  /** One turn of the loop keeps `Collected`. */
  lemma CollectStep(schedule: Schedule, today: int, found: seq<TodayMatch>, pending: set<int>, no: int)
    requires Collected(schedule, today, found, pending) && no in pending && pending <= schedule.Keys
    ensures Collected(schedule, today,
      if schedule[no].date == today then found + [EntryFor(no, schedule[no])] else found, pending - {no})
  {
    if schedule[no].date == today {
      var next := found + [EntryFor(no, schedule[no])];
      assert MatchNumbers(next) == MatchNumbers(found) + [no];
      assert next[|found|].matchNo == no;
    }
  }

  /** The `!tdy` loop: collects today's fixtures from the schedule, then
      sorts them by match number. */
  method TodayMatches(schedule: Schedule, today: int) returns (rows: seq<TodayMatch>)
    ensures TodayList(schedule, today, rows)
  {
    var found: seq<TodayMatch> := [];
    var pending := schedule.Keys;
    while exists no :: no in pending
      invariant pending <= schedule.Keys
      invariant Collected(schedule, today, found, pending)
      decreases pending
    {
      var no :| no in pending;
      CollectStep(schedule, today, found, pending, no);
      if schedule[no].date == today {
        found := found + [EntryFor(no, schedule[no])];
      }
      pending := pending - {no};
    }
    rows := SortBy(found, MatchNo);
    SortedTodayList(schedule, today, found, pending);
  }

  /** Today's fixtures, collected in any order without repeats, are the
      list once sorted by match number. */
  lemma SortedTodayList(schedule: Schedule, today: int, found: seq<TodayMatch>, pending: set<int>)
    requires Collected(schedule, today, found, pending) && forall no :: no !in pending
    ensures TodayList(schedule, today, SortBy(found, MatchNo))
  {
    var rows := SortBy(found, MatchNo);
    SortByCorrect(found, MatchNo);
    assert IncreasingBy(rows, MatchNo) by {
      PermutationKeepsDistinctBy(found, rows, MatchNo);
      SortedDistinctIncreasing(rows, MatchNo);
    }
    SameEntries(schedule, today, found, rows);
  }

  /** A permutation keeps the entries' properties and their match numbers. */
  lemma SameEntries(schedule: Schedule, today: int, found: seq<TodayMatch>, rows: seq<TodayMatch>)
    requires multiset(rows) == multiset(found)
    requires forall i :: 0 <= i < |found| ==>
      ScheduledOn(schedule, found[i].matchNo, today) && found[i] == EntryFor(found[i].matchNo, schedule[found[i].matchNo])
    requires forall no :: no in schedule && schedule[no].date == today ==> no in MatchNumbers(found)
    ensures forall i :: 0 <= i < |rows| ==>
      ScheduledOn(schedule, rows[i].matchNo, today) && rows[i] == EntryFor(rows[i].matchNo, schedule[rows[i].matchNo])
    ensures forall no :: no in schedule && schedule[no].date == today ==> no in MatchNumbers(rows)
  {
    forall i | 0 <= i < |rows|
      ensures ScheduledOn(schedule, rows[i].matchNo, today) && rows[i] == EntryFor(rows[i].matchNo, schedule[rows[i].matchNo])
    {
      assert rows[i] in multiset(found);
    }
    forall no | no in schedule && schedule[no].date == today ensures no in MatchNumbers(rows) {
      var j :| 0 <= j < |found| && MatchNumbers(found)[j] == no;
      assert found[j] in multiset(rows);
      var k :| 0 <= k < |rows| && rows[k] == found[j];
      assert MatchNumbers(rows)[k] == no;
    }
  }

  /** `f"Match {no:<5} {home} vs {away:<15} {start}"`. */
  function TodayLine(m: TodayMatch): string {
    "Match " + PadRight(IntToString(m.matchNo), 5) + " " + m.home + " vs " + PadRight(m.away, 15) + " " + m.start + "\n"
  }

  function TodayLines(rows: seq<TodayMatch>): string {
    if rows == [] then "" else TodayLine(rows[0]) + TodayLines(rows[1..])
  }

  const TodayHeader := "\U{1F3CF} Today's Matches \U{1F3CF}\n\n"
    + "Match #" + Repeat(' ', 5) + "Teams" + Repeat(' ', 20) + "Start Time\n"
    + Repeat('-', 50) + "\n"

  /** The `!tdy` text for the listed fixtures. */
  function TodayText(rows: seq<TodayMatch>): (r: string)
    ensures rows == [] <==> r == NoMatchesText
  {
    if rows == [] then NoMatchesText
    else
      var r := TodayHeader + TodayLines(rows);
      assert r[0] == '\U{1F3CF}';
      r
  }

  // ---------------------------------------------------------------------------
  // The handler

  /** The reply to a command past its cooldown, `t` being the tables before
      it; `!tdy`'s reply depends on the schedule alone and is given by
      `TodayText`. */
  function ReplyOf(cmd: Command, content: string, admin: bool, schedule: Schedule, today: int, t: Tables, store: StoreStatus): (r: Reply)
    requires cmd != NotACommand && cmd != Tdy
    ensures r == HelpEmbed <==> cmd == About
    ensures !admin && (cmd == Undo || cmd == ClearPoints || cmd == AdminLog) ==> r == TextReply(AdminOnlyText)
    ensures cmd == Win && DecideWin(content, admin, schedule, today).Rejected? ==>
      r == TextReply(DecideWin(content, admin, schedule, today).reply)
    ensures store.Unavailable? && CallOf(cmd, content, admin, schedule, today, "", 0).Some? ==> r == TextReply(UnexpectedText)
  {
    match cmd
    case Win =>
      (match DecideWin(content, admin, schedule, today)
       case Rejected(reply) => TextReply(reply)
       case Accepted(u, m) => if store.Available? then TextReply(AwardedText(u, m)) else TextReply(UnexpectedText))
    case D11 =>
      if store.Available? then TextReply(FormatPoints(GetPoints(t))) else TextReply(UnexpectedText)
    case Undo =>
      if !admin then TextReply(AdminOnlyText)
      else if store.Unavailable? then TextReply(UnexpectedText)
      else
        var undone := UndoReply(t);
        TextReply((if undone.0 then Tick else Cross) + undone.1)
    case ClearPoints =>
      if !admin then TextReply(AdminOnlyText)
      else if store.Unavailable? then TextReply(UnexpectedText)
      else TextReply(ClearedText)
    case AdminLog =>
      if !admin then TextReply(AdminOnlyText)
      else if store.Unavailable? then TextReply(AdminLogErrorText)
      else TextReply(AdminLogText(GetMatchResults(t)))
    case About => HelpEmbed
  }

  /** `!win` past its cooldown: the checks, then one `update_points` call
      with 1 point, the author's name as `updated_by`. */
  method WinCommand(db: Ledger, msg: Message, admin: bool, schedule: Schedule, today: int, now: int, store: StoreStatus)
    returns (reply: Reply)
    requires db.Valid()
    modifies db
    ensures db.Valid()
    ensures db.State() == Perform(old(db.State()), CallOf(Win, msg.content, admin, schedule, today, msg.authorName, now), store)
    ensures reply == ReplyOf(Win, msg.content, admin, schedule, today, old(db.State()), store)
  {
    var decision := DecideWin(msg.content, admin, schedule, today);
    if decision.Rejected? {
      return TextReply(decision.reply);
    }
    var r := db.UpdatePoints(decision.username, 1, decision.matchNumber, msg.authorName, now, store);
    if r.DatabaseError? {
      return TextReply(UnexpectedText);
    }
    return TextReply(AwardedText(decision.username, decision.matchNumber));
  }

  /** `!undo` past its cooldown: admins only, then `undo_last_point`. */
  method UndoCommand(db: Ledger, msg: Message, admin: bool, schedule: Schedule, today: int, now: int, store: StoreStatus)
    returns (reply: Reply)
    requires db.Valid()
    modifies db
    ensures db.Valid()
    ensures db.State() == Perform(old(db.State()), CallOf(Undo, msg.content, admin, schedule, today, msg.authorName, now), store)
    ensures reply == ReplyOf(Undo, msg.content, admin, schedule, today, old(db.State()), store)
  {
    if !admin {
      return TextReply(AdminOnlyText);
    }
    ghost var before := db.State();
    var r := db.UndoLastPoint(store);
    if r.DatabaseError? {
      return TextReply(UnexpectedText);
    }
    var undone := r.value;
    assert undone == UndoReply(before);
    if undone.0 {
      return TextReply(Tick + undone.1);
    }
    return TextReply(Cross + undone.1);
  }

  /** `!clearpoints` past its cooldown: admins only, then `clear_points`. */
  method ClearCommand(db: Ledger, msg: Message, admin: bool, schedule: Schedule, today: int, now: int, store: StoreStatus)
    returns (reply: Reply)
    requires db.Valid()
    modifies db
    ensures db.Valid()
    ensures db.State() == Perform(old(db.State()), CallOf(ClearPoints, msg.content, admin, schedule, today, msg.authorName, now), store)
    ensures reply == ReplyOf(ClearPoints, msg.content, admin, schedule, today, old(db.State()), store)
  {
    if !admin {
      return TextReply(AdminOnlyText);
    }
    var r := db.ClearPoints(store);
    if r.DatabaseError? {
      return TextReply(UnexpectedText);
    }
    return TextReply(ClearedText);
  }

  /** One command once it is past the rate limit and its cooldown. */
  method RunCommand(db: Ledger, cmd: Command, msg: Message, admin: bool, schedule: Schedule, today: int, now: int, store: StoreStatus)
    returns (reply: Reply)
    requires db.Valid() && cmd != NotACommand
    modifies db
    ensures db.Valid()
    ensures db.State() == Perform(old(db.State()), CallOf(cmd, msg.content, admin, schedule, today, msg.authorName, now), store)
    ensures cmd != Tdy ==> reply == ReplyOf(cmd, msg.content, admin, schedule, today, old(db.State()), store)
    ensures cmd == Tdy ==> exists rows :: TodayList(schedule, today, rows) && reply == TextReply(TodayText(rows))
  {
    match cmd {
      case Win =>
        reply := WinCommand(db, msg, admin, schedule, today, now, store);
      case Undo =>
        reply := UndoCommand(db, msg, admin, schedule, today, now, store);
      case ClearPoints =>
        reply := ClearCommand(db, msg, admin, schedule, today, now, store);
      case D11 =>
        if store.Unavailable? {
          return TextReply(UnexpectedText);
        }
        return TextReply(FormatPoints(GetPoints(db.State())));
      case AdminLog =>
        if !admin {
          return TextReply(AdminOnlyText);
        }
        if store.Unavailable? {
          return TextReply(AdminLogErrorText);
        }
        return TextReply(AdminLogText(GetMatchResults(db.State())));
      case Tdy =>
        var rows := TodayMatches(schedule, today);
        return TextReply(TodayText(rows));
      case About =>
        return HelpEmbed;
    }
  }

  /** `on_message`: messages of the bot itself are ignored; every other
      message is counted against the author's rate limit before anything
      else; a command is then held back by its cooldown, and only then runs. */
  method OnMessage(db: Ledger, throttle: Throttle, msg: Message, adminIds: seq<int>, schedule: Schedule, today: int, now: int, store: StoreStatus)
    returns (reply: Reply)
    requires db.Valid() && throttle.Valid()
    modifies db, throttle
    ensures db.Valid() && throttle.Valid()
    ensures msg.fromSelf ==>
      && reply == NoReply && db.State() == old(db.State())
      && throttle.counts == old(throttle.counts) && throttle.cooldowns == old(throttle.cooldowns)
    ensures !msg.fromSelf ==>
      throttle.counts == RateStep(old(throttle.counts), msg.authorId, now, throttle.commandsPerMinute).1
    ensures !msg.fromSelf && !RateStep(old(throttle.counts), msg.authorId, now, throttle.commandsPerMinute).0 ==>
      && reply == TextReply(RateLimitText) && db.State() == old(db.State())
      && throttle.cooldowns == old(throttle.cooldowns)
    ensures !msg.fromSelf && RateStep(old(throttle.counts), msg.authorId, now, throttle.commandsPerMinute).0 ==>
      var cmd := CommandOf(msg.content);
      var key := CooldownKey(msg.authorId, if cmd == NotACommand then "" else CommandName(cmd));
      var cooled := CooldownStep(old(throttle.cooldowns), key, now, throttle.cooldownSeconds);
      && (cmd == NotACommand ==>
            reply == NoReply && db.State() == old(db.State()) && throttle.cooldowns == old(throttle.cooldowns))
      && (cmd != NotACommand ==> throttle.cooldowns == cooled.1)
      && (cmd != NotACommand && !cooled.0 ==>
            reply == TextReply(CooldownText(throttle.cooldownSeconds)) && db.State() == old(db.State()))
      && (cmd != NotACommand && cooled.0 ==>
            var admin := IsAdmin(msg.authorId, adminIds);
            && db.State() == Perform(old(db.State()), CallOf(cmd, msg.content, admin, schedule, today, msg.authorName, now), store)
            && (cmd != Tdy ==> reply == ReplyOf(cmd, msg.content, admin, schedule, today, old(db.State()), store))
            && (cmd == Tdy ==> exists rows :: TodayList(schedule, today, rows) && reply == TextReply(TodayText(rows))))
  {
    if msg.fromSelf {
      return NoReply;
    }
    var withinRate := throttle.CheckRateLimit(msg.authorId, now);
    if !withinRate {
      return TextReply(RateLimitText);
    }
    var cmd := CommandOf(msg.content);
    if cmd == NotACommand {
      return NoReply;
    }
    var cooledDown := throttle.GetCommandCooldown(msg.authorId, CommandName(cmd), now);
    if !cooledDown {
      return TextReply(CooldownText(throttle.cooldownSeconds));
    }
    reply := RunCommand(db, cmd, msg, IsAdmin(msg.authorId, adminIds), schedule, today, now, store);
  }
}
