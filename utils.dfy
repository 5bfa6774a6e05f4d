/** The helpers of utils.py: Discord mention detection, the `!win` argument
    check, the leaderboard text, and the two per-key throttles (a cooldown
    per user and command, and a per-minute command counter per user). */
module Utils {
  import opened Text
  import opened Seqs

  /** `MAX_MATCH_NUMBER` at its default. */
  const MaxMatchNumber := 74

  /** The rate-limit window: `timedelta(minutes=1)` in seconds. */
  const RateWindow := 60

  // ---------------------------------------------------------------------------
  // is_admin

  /** `user.id in ADMIN_USER_IDS`. */
  predicate IsAdmin(userId: int, adminIds: seq<int>): (r: bool)
    ensures r <==> exists i :: 0 <= i < |adminIds| && adminIds[i] == userId
  {
    userId in adminIds
  }

  // ---------------------------------------------------------------------------
  // Mentions: the prefix pattern `<@!?(\d+)>`

  /** Length of the run of decimal digits at the front of `s`. */
  function DigitRun(s: string): (n: nat)
    ensures n <= |s|
    ensures forall i :: 0 <= i < n ==> IsDigit(s[i])
    ensures n < |s| ==> !IsDigit(s[n])
  {
    if s == [] || !IsDigit(s[0]) then 0 else 1 + DigitRun(s[1..])
  }

  /** `re.match(r'<@!?(\d+)>', s)`: the digits of a mention at the very start
      of `s`, whatever follows it. */
  function MatchMention(s: string): (r: Option<string>)
    ensures r.Some? ==> |r.value| > 0 && AllDigits(r.value)
  {
    if |s| < 2 || s[0] != '<' || s[1] != '@' then None
    else
      var start := if |s| > 2 && s[2] == '!' then 3 else 2;
      var n := DigitRun(s[start..]);
      if n > 0 && start + n < |s| && s[start + n] == '>' then Some(s[start..start + n]) else None
  }

  predicate IsMention(s: string) {
    MatchMention(s).Some?
  }

  /** The mention `<@digits>`, or `<@!digits>` for a nickname mention. */
  function MentionText(bang: bool, digits: string): string {
    "<@" + (if bang then "!" else "") + digits + ">"
  }

  lemma DigitRunOf(digits: string, tail: string)
    requires AllDigits(digits)
    requires tail == [] || !IsDigit(tail[0])
    ensures DigitRun(digits + tail) == |digits|
  {
    var s := digits + tail;
    assert forall i :: 0 <= i < |digits| ==> s[i] == digits[i];
    assert |digits| < |s| ==> s[|digits|] == tail[0];
  }

  /** Every mention is recognised, whatever follows it, and yields its digits. */
  lemma MentionComplete(bang: bool, digits: string, rest: string)
    requires |digits| > 0 && AllDigits(digits)
    ensures MatchMention(MentionText(bang, digits) + rest) == Some(digits)
  {
    var prefix := "<@" + (if bang then "!" else "");
    var s := MentionText(bang, digits) + rest;
    var tail := ">" + rest;
    assert s == prefix + (digits + tail);
    var start := |prefix|;
    assert s[start..] == digits + tail;
    assert bang <==> s[2] == '!';
    DigitRunOf(digits, tail);
    assert s[start..start + |digits|] == digits;
  }

  /** Whatever is recognised starts with a mention of the digits found. */
  lemma MentionSound(s: string)
    requires IsMention(s)
    ensures exists bang :: MentionText(bang, MatchMention(s).value) <= s
  {
    var digits := MatchMention(s).value;
    var bang := |s| > 2 && s[2] == '!';
    var m := MentionText(bang, digits);
    var start := if bang then 3 else 2;
    assert m == s[..start + |digits| + 1];
  }

  /** `extract_mention_id`: the digits of a leading mention, or `mention`
      itself when it does not start with one. */
  function ExtractMentionId(mention: string): (r: string)
    ensures IsMention(mention) ==> |r| > 0 && AllDigits(r)
    ensures IsMention(mention) ==> exists bang :: MentionText(bang, r) <= mention
    ensures !IsMention(mention) ==> r == mention
  {
    match MatchMention(mention)
    case Some(digits) =>
      MentionSound(mention);
      digits
    case None => mention
  }

  /** A mention gives back its own digits, leading zeros included, whatever
      follows it. */
  lemma ExtractMentionIdOfMention(bang: bool, digits: string, rest: string)
    requires |digits| > 0 && AllDigits(digits)
    ensures ExtractMentionId(MentionText(bang, digits) + rest) == digits
  {
    MentionComplete(bang, digits, rest);
  }

  // ---------------------------------------------------------------------------
  // validate_input

  const UsernameError := "Invalid username format. Use only letters and numbers or mention a user."

  /** The range error, with `MAX_MATCH_NUMBER` written out. */
  function RangeError(): string {
    "Invalid match number. Must be between 1 and " + IntToString(MaxMatchNumber) + "."
  }

  /** `str.isalnum()` for one character, restricted to ASCII. */
  predicate IsAlnum(c: char) {
    ('a' <= c <= 'z') || ('A' <= c <= 'Z') || ('0' <= c <= '9')
  }

  /** A plain username: 1 to 32 characters, all letters and digits. */
  predicate ValidUsername(u: string) {
    0 < |u| <= 32 && forall i :: 0 <= i < |u| ==> IsAlnum(u[i])
  }

  /** `validate_input(username, match_number)`: a leading mention is accepted
      outright, with no look at the match number; any other name must be a
      plain username, and then the match number must be in 1..74. */
  function ValidateInput(username: string, matchNumber: int): (r: (bool, string))
    ensures r.0 <==> IsMention(username) || (ValidUsername(username) && 1 <= matchNumber <= MaxMatchNumber)
    ensures r.0 <==> r.1 == ""
    ensures !r.0 && !ValidUsername(username) ==> r.1 == UsernameError
    ensures !r.0 && ValidUsername(username) ==> r.1 == RangeError()
  {
    if IsMention(username) then (true, "")
    else if !ValidUsername(username) then (false, UsernameError)
    else if matchNumber < 1 || matchNumber > MaxMatchNumber then (false, RangeError())
    else (true, "")
  }

  /** The two ways to pass validation never overlap: a mention starts with
      `<`, which no plain username contains. */
  lemma MentionIsNotPlain(s: string)
    requires IsMention(s)
    ensures !ValidUsername(s)
  {
    assert !IsAlnum(s[0]);
  }

  // ---------------------------------------------------------------------------
  // format_points

  const NoPointsText := "No points recorded yet!"
  const LeaderboardHeader := "\U{1F3C6} Dream11 Leaderboard \U{1F3C6}\n\n"

  function NegatedPoints(entry: (string, int)): int { -entry.1 }

  /** `sorted(points.items(), key=lambda x: x[1], reverse=True)`: descending
      by points, ties in insertion order (Python's sort is stable, also when
      reversed). */
  function Ranked(points: seq<(string, int)>): (r: seq<(string, int)>)
    ensures |r| == |points|
  {
    SortBy(points, NegatedPoints)
  }

  /** The ranking is ordered by points, from most to fewest, holds the same
      entries, and keeps entries with equal points in their original order. */
  lemma RankedCorrect(points: seq<(string, int)>)
    ensures forall i, j :: 0 <= i < j < |Ranked(points)| ==> Ranked(points)[i].1 >= Ranked(points)[j].1
    ensures multiset(Ranked(points)) == multiset(points)
    ensures forall k :: WithKey(Ranked(points), NegatedPoints, k) == WithKey(points, NegatedPoints, k)
  {
    SortByCorrect(points, NegatedPoints);
    var r := Ranked(points);
    forall i, j | 0 <= i < j < |r| ensures r[i].1 >= r[j].1 {
      assert NegatedPoints(r[i]) <= NegatedPoints(r[j]);
    }
  }

  /** The name as printed: a leading mention verbatim, anything else after `@`. */
  function DisplayName(user: string): (r: string)
    ensures r == user <==> IsMention(user)
    ensures !IsMention(user) ==> r == "@" + user
  {
    if IsMention(user) then user else "@" + user
  }

  /** One leaderboard line: `{rank}. {name}: {points} point(s)`. */
  function Line(rank: int, entry: (string, int)): string {
    IntToString(rank) + ". " + DisplayName(entry.0) + ": " + IntToString(entry.1) + " point(s)\n"
  }

  /** The text of `entries` one after the other, each rendered by `line`
      with its rank, counting from `rank` (`enumerate(..., 1)`). */
  function Numbered<T>(entries: seq<T>, rank: int, line: (int, T) -> string): string
    decreases |entries|
  {
    if entries == [] then "" else line(rank, entries[0]) + Numbered(entries[1..], rank + 1, line)
  }

  /** The text of two runs of entries is the text of each, the second
      ranked on from where the first stopped. */
  lemma {:induction false} NumberedConcat<T>(a: seq<T>, b: seq<T>, rank: int, line: (int, T) -> string)
    ensures Numbered(a + b, rank, line) == Numbered(a, rank, line) + Numbered(b, rank + |a|, line)
    decreases |a|
  {
    if a == [] {
      assert a + b == b;
    } else {
      assert (a + b)[0] == a[0] && (a + b)[1..] == a[1..] + b;
      NumberedConcat(a[1..], b, rank + 1, line);
    }
  }

  /** The entry at position `i` is rendered with rank `rank + i`, between
      the entries before it and those after it. */
  lemma NumberedAt<T>(s: seq<T>, i: nat, rank: int, line: (int, T) -> string)
    requires i < |s|
    ensures Numbered(s, rank, line) == Numbered(s[..i], rank, line) + line(rank + i, s[i]) + Numbered(s[i + 1..], rank + i + 1, line)
  {
    var rest := s[i..];
    assert s == s[..i] + rest;
    NumberedConcat(s[..i], rest, rank, line);
    assert rest[0] == s[i] && rest[1..] == s[i + 1..];
  }

  /** The leaderboard lines of `entries`, ranked from `rank` on. */
  function Lines(entries: seq<(string, int)>, rank: int): string {
    Numbered(entries, rank, Line)
  }

  /** In the leaderboard, the entry at position `i` of the ranking is
      printed with rank `i + 1`, after the header and the lines of the
      entries before it and before the lines of those after it. */
  lemma LineOfRank(points: seq<(string, int)>, i: nat)
    requires i < |points|
    ensures var r := Ranked(points);
      FormatPoints(points) == LeaderboardHeader + (Lines(r[..i], 1) + Line(i + 1, r[i]) + Lines(r[i + 1..], i + 2))
  {
    var r := Ranked(points);
    assert Lines(r, 1) == Lines(r[..i], 1) + Line(i + 1, r[i]) + Lines(r[i + 1..], i + 2) by {
      NumberedAt(r, i, 1, Line);
    }
    assert FormatPoints(points) == LeaderboardHeader + Lines(r, 1);
  }

  /** `format_points(points)`, `points` being the dictionary's items in
      insertion order. */
  function FormatPoints(points: seq<(string, int)>): (r: string)
    ensures points == [] <==> r == NoPointsText
    ensures points != [] ==> r == LeaderboardHeader + Lines(Ranked(points), 1)
  {
    if points == [] then NoPointsText
    else
      var r := LeaderboardHeader + Lines(Ranked(points), 1);
      assert r[0] != NoPointsText[0];
      r
  }

  // ---------------------------------------------------------------------------
  // get_command_cooldown and check_rate_limit, as functions of the old state

  /** `f"{user_id}_{command}"`. */
  function CooldownKey(userId: int, command: string): string {
    IntToString(userId) + "_" + command
  }

  /** Position of the first `_` in `s`, or `|s|` when there is none. */
  function FirstUnderscore(s: string): (n: nat)
    ensures n <= |s|
    ensures n < |s| ==> s[n] == '_'
    ensures forall i :: 0 <= i < n ==> s[i] != '_'
  {
    if s == [] || s[0] == '_' then 0 else 1 + FirstUnderscore(s[1..])
  }

  lemma FirstUnderscoreAfter(x: string, c: string)
    requires forall i :: 0 <= i < |x| ==> x[i] != '_'
    ensures FirstUnderscore(x + "_" + c) == |x|
  {
    var s := x + "_" + c;
    assert s[|x|] == '_';
    assert forall i :: 0 <= i < |x| ==> s[i] == x[i];
  }

  /** Different (user, command) pairs never share a cooldown: a user id has
      no `_`, so the first `_` ends it. */
  lemma CooldownKeyInjective(u1: int, c1: string, u2: int, c2: string)
    requires CooldownKey(u1, c1) == CooldownKey(u2, c2)
    ensures u1 == u2 && c1 == c2
  {
    var a, b := IntToString(u1), IntToString(u2);
    var k := CooldownKey(u1, c1);
    FirstUnderscoreAfter(a, c1);
    FirstUnderscoreAfter(b, c2);
    assert k == a + ("_" + c1) && k == b + ("_" + c2);
    assert a == k[..|a|] == b;
    assert c1 == k[|a| + 1..] == c2;
    IntToStringInjective(u1, u2);
  }

  /** The cooldown check at time `now` on map `cooldowns` (key to expiry):
      refused while `now` is before the key's expiry, otherwise allowed with
      the expiry moved to `now + cooldown`. */
  function CooldownStep(cooldowns: map<string, int>, key: string, now: int, cooldown: int): (r: (bool, map<string, int>))
    ensures r.0 <==> !(key in cooldowns && now < cooldowns[key])
    ensures !r.0 ==> r.1 == cooldowns
    ensures r.0 ==> key in r.1 && r.1[key] == now + cooldown
    ensures forall k :: k != key ==> (k in r.1 <==> k in cooldowns)
    ensures forall k :: k != key && k in cooldowns ==> r.1[k] == cooldowns[k]
  {
    if key in cooldowns && now < cooldowns[key] then (false, cooldowns)
    else (true, cooldowns[key := now + cooldown])
  }

  /** After an allowed command, the same user and command are refused exactly
      until `cooldown` seconds have passed. */
  lemma CooldownHolds(cooldowns: map<string, int>, key: string, t: int, later: int, cooldown: int)
    requires CooldownStep(cooldowns, key, t, cooldown).0
    ensures !CooldownStep(CooldownStep(cooldowns, key, t, cooldown).1, key, later, cooldown).0
        <==> later < t + cooldown
  {
  }

  /** A user's counter: commands counted in the current window, and when the
      window ends. */
  datatype RateEntry = RateEntry(count: int, resetTime: int)

  /** The user's entry after the window check: a user seen for the first
      time gets `(0, now)` (the `defaultdict` factory), and an entry whose
      window has ended starts a new one of a minute. */
  function Refreshed(counts: map<int, RateEntry>, userId: int, now: int): (e: RateEntry)
    ensures userId in counts && now <= counts[userId].resetTime ==> e == counts[userId]
    ensures userId in counts && now > counts[userId].resetTime ==> e == RateEntry(0, now + RateWindow)
    ensures userId !in counts ==> e == RateEntry(0, now)
    ensures e.resetTime >= now
  {
    var e := if userId in counts then counts[userId] else RateEntry(0, now);
    if now > e.resetTime then RateEntry(0, now + RateWindow) else e
  }

  /** The rate check at time `now`: refused with the count unchanged once
      the window holds `limit` commands, otherwise counted. The entry is
      stored in both cases. */
  function RateStep(counts: map<int, RateEntry>, userId: int, now: int, limit: int): (r: (bool, map<int, RateEntry>))
    ensures r.0 <==> Refreshed(counts, userId, now).count < limit
    ensures userId in r.1
    ensures r.1[userId].resetTime == Refreshed(counts, userId, now).resetTime
    ensures r.1[userId].count == Refreshed(counts, userId, now).count + (if r.0 then 1 else 0)
    ensures forall u :: u != userId ==> (u in r.1 <==> u in counts)
    ensures forall u :: u != userId && u in counts ==> r.1[u] == counts[u]
  {
    var e := Refreshed(counts, userId, now);
    if e.count >= limit then (false, counts[userId := e])
    else (true, counts[userId := RateEntry(e.count + 1, e.resetTime)])
  }

  /** No user's count ever exceeds the limit. */
  predicate CountsBounded(counts: map<int, RateEntry>, limit: int) {
    forall u :: u in counts ==> 0 <= counts[u].count <= limit
  }

  lemma RateStepBounded(counts: map<int, RateEntry>, userId: int, now: int, limit: nat)
    requires CountsBounded(counts, limit)
    ensures CountsBounded(RateStep(counts, userId, now, limit).1, limit)
  {
  }

  /** How many of a user's commands at the given times are let through. */
  function Allowed(counts: map<int, RateEntry>, userId: int, times: seq<int>, limit: int): nat
    decreases |times|
  {
    if times == [] then 0
    else
      var r := RateStep(counts, userId, times[0], limit);
      (if r.0 then 1 else 0) + Allowed(r.1, userId, times[1..], limit)
  }

  /** Within one window (all commands before the window's end), a user gets
      at most `limit` commands through, counting those already counted. */
  lemma {:induction false} AllowedWithinWindow(counts: map<int, RateEntry>, userId: int, times: seq<int>, limit: nat)
    requires userId in counts && 0 <= counts[userId].count
    requires forall i :: 0 <= i < |times| ==> times[i] <= counts[userId].resetTime
    ensures counts[userId].count + Allowed(counts, userId, times, limit) <= if counts[userId].count > limit then counts[userId].count else limit
    decreases |times|
  {
    if times != [] {
      var r := RateStep(counts, userId, times[0], limit);
      AllowedWithinWindow(r.1, userId, times[1..], limit);
    }
  }

  // ---------------------------------------------------------------------------
  // The module-level dictionaries, updated in place

  class Throttle {
    /** `COMMAND_COOLDOWN`, in seconds. */
    const cooldownSeconds: int
    /** `MAX_COMMANDS_PER_MINUTE`. */
    const commandsPerMinute: nat
    /** `command_cooldowns`: expiry time per cooldown key. */
    var cooldowns: map<string, int>
    /** `command_counts`: counter entry per user id. */
    var counts: map<int, RateEntry>

    ghost predicate Valid()
      reads this
    {
      CountsBounded(counts, commandsPerMinute)
    }

    constructor (cooldownSeconds: int, commandsPerMinute: nat)
      ensures Valid()
      ensures this.cooldownSeconds == cooldownSeconds && this.commandsPerMinute == commandsPerMinute
      ensures cooldowns == map[] && counts == map[]
    {
      this.cooldownSeconds := cooldownSeconds;
      this.commandsPerMinute := commandsPerMinute;
      cooldowns := map[];
      counts := map[];
    }

    /** `get_command_cooldown(user_id, command)` at time `now`. */
    method GetCommandCooldown(userId: int, command: string, now: int) returns (allowed: bool)
      requires Valid()
      modifies this
      ensures Valid()
      ensures (allowed, cooldowns) == CooldownStep(old(cooldowns), CooldownKey(userId, command), now, cooldownSeconds)
      ensures counts == old(counts)
    {
      var key := CooldownKey(userId, command);
      if key in cooldowns {
        if now < cooldowns[key] {
          return false;
        }
      }
      cooldowns := cooldowns[key := now + cooldownSeconds];
      return true;
    }

    /** `check_rate_limit(user_id)` at time `now`. */
    method CheckRateLimit(userId: int, now: int) returns (allowed: bool)
      requires Valid()
      modifies this
      ensures Valid()
      ensures (allowed, counts) == RateStep(old(counts), userId, now, commandsPerMinute)
      ensures cooldowns == old(cooldowns)
    {
      if userId !in counts {
        counts := counts[userId := RateEntry(0, now)];
      }
      var entry := counts[userId];
      if now > entry.resetTime {
        entry := RateEntry(0, now + RateWindow);
        counts := counts[userId := entry];
      }
      assert entry == Refreshed(old(counts), userId, now);
      assert counts == old(counts)[userId := entry];
      if entry.count >= commandsPerMinute {
        return false;
      }
      counts := counts[userId := RateEntry(entry.count + 1, entry.resetTime)];
      assert counts == old(counts)[userId := RateEntry(entry.count + 1, entry.resetTime)];
      return true;
    }
  }
}
