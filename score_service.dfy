/** ScoreService.processScore (services/scoreService.js): pull `TimeGuessr #round
    points/max` out of a chat message, compute the accuracy percentage, and, unless
    the sender already has a score for that round, upsert the sender and append
    the score. */
module ScoreService {
  import opened Common
  import opened Store

  /** The literal that opens the header of the regular expression. */
  const Label: string := "TimeGuessr #"

  /** The length of the longest run of digits that opens t (what a greedy `\d+` takes). */
  function DigitPrefix(t: string): (n: nat)
    ensures n <= |t|
    ensures forall k | 0 <= k < n :: IsDigit(t[k])
    ensures n == |t| || !IsDigit(t[n])
  {
    if t != [] && IsDigit(t[0]) then 1 + DigitPrefix(t[1..]) else 0
  }

  /** Digits followed by something that is not a digit: the greedy run takes exactly the digits. */
  lemma {:induction false} DigitPrefixOf(d: string, rest: string)
    requires AllDigits(d)
    requires rest == [] || !IsDigit(rest[0])
    ensures DigitPrefix(d + rest) == |d|
  {
    if d != [] {
      assert (d + rest)[1..] == d[1..] + rest;
      DigitPrefixOf(d[1..], rest);
    }
  }

  /** A run of n digits followed by a non-digit (or the end) is exactly the greedy run. */
  lemma DigitPrefixExact(t: string, n: nat)
    requires n <= |t| && forall k | 0 <= k < n :: IsDigit(t[k])
    requires n == |t| || !IsDigit(t[n])
    ensures DigitPrefix(t) == n
  {
    assert t == t[..n] + t[n..];
    DigitPrefixOf(t[..n], t[n..]);
  }

  /** A run of n digits lies within the greedy run. */
  lemma {:induction false} DigitPrefixAtLeast(t: string, n: nat)
    requires n <= |t| && forall k | 0 <= k < n :: IsDigit(t[k])
    ensures DigitPrefix(t) >= n
  {
    if n > 0 {
      assert forall k | 0 <= k < n - 1 :: t[1..][k] == t[k + 1];
      DigitPrefixAtLeast(t[1..], n - 1);
    }
  }

  /** The three capture groups of one match. */
  datatype Groups = Groups(round: string, points: string, maxPoints: string)

  /** `(\d+)` followed by the literal sep: the digits and what follows the separator. Only the
      longest digit run can be followed by a non-digit separator. */
  function NumberThenRest(t: string, sep: char): (r: Option<(string, string)>)
    ensures r.Some? ==> AllDigits(r.value.0) && |r.value.0| > 0
  {
    var n := DigitPrefix(t);
    if 0 < n < |t| && t[n] == sep then Some((t[..n], t[n + 1..])) else None
  }

  /** t opens with the literal `TimeGuessr #`. */
  predicate StartsWithLabel(t: string)
  {
    |Label| <= |t| && t[..|Label|] == Label
  }

  /** The part of the pattern after the label, anchored at the start of t: `(\d+) (\d+)\/(\d+)`,
      the last group greedy. */
  function MatchGroups(t: string): (g: Option<Groups>)
    ensures g.Some? ==> AllDigits(g.value.round) && AllDigits(g.value.points) && AllDigits(g.value.maxPoints)
    ensures g.Some? ==> |g.value.round| > 0 && |g.value.points| > 0 && |g.value.maxPoints| > 0
  {
    match NumberThenRest(t, ' ')
    case None => None
    case Some((round, t2)) =>
      match NumberThenRest(t2, '/')
      case None => None
      case Some((points, t3)) =>
        var n3 := DigitPrefix(t3);
        if n3 > 0 then Some(Groups(round, points, t3[..n3])) else None
  }

  /** The match of /TimeGuessr #(\d+) (\d+)\/(\d+)/ anchored at the start of t, if any. */
  function MatchPrefix(t: string): (g: Option<Groups>)
    ensures g.Some? ==> AllDigits(g.value.round) && AllDigits(g.value.points) && AllDigits(g.value.maxPoints)
    ensures g.Some? ==> |g.value.round| > 0 && |g.value.points| > 0 && |g.value.maxPoints| > 0
  {
    if StartsWithLabel(t) then MatchGroups(t[|Label|..]) else None
  }

  /** The match starting at position i of s. */
  function MatchAt(s: string, i: nat): Option<Groups>
    requires i <= |s|
  {
    MatchPrefix(s[i..])
  }

  /** t opens with n non-empty digits followed by the separator. */
  ghost predicate NumberThen(t: string, n: nat, sep: char)
  {
    0 < n < |t| && (forall k | 0 <= k < n :: IsDigit(t[k])) && t[n] == sep
  }

  /** Reference reading of the pattern after the label: n1 digits, a space, n2 digits, a slash
      and n3 digits, each run non-empty. */
  ghost predicate GroupsAt(t1: string, n1: nat, n2: nat, n3: nat)
  {
    && NumberThen(t1, n1, ' ')
    && (var t2 := t1[n1 + 1..];
        && NumberThen(t2, n2, '/')
        && (var t3 := t2[n2 + 1..];
            0 < n3 <= |t3| && forall k | 0 <= k < n3 :: IsDigit(t3[k])))
  }

  /** Reference reading of the whole pattern: the label, then the groups. */
  ghost predicate HeaderAt(t: string, n1: nat, n2: nat, n3: nat)
  {
    StartsWithLabel(t) && GroupsAt(t[|Label|..], n1, n2, n3)
  }

  /** Some substring of s has the header shape. */
  ghost predicate ContainsHeader(s: string)
  {
    exists i: nat, n1: nat, n2: nat, n3: nat | i <= |s| :: HeaderAt(s[i..], n1, n2, n3)
  }

  /** The separator rule agrees with its reference reading. */
  lemma NumberThenRestIff(t: string, sep: char)
    requires !IsDigit(sep)
    ensures NumberThenRest(t, sep).Some? <==> exists n: nat :: NumberThen(t, n, sep)
    ensures forall n: nat | NumberThen(t, n, sep) :: NumberThenRest(t, sep) == Some((t[..n], t[n + 1..]))
  {
    forall n: nat | NumberThen(t, n, sep) ensures DigitPrefix(t) == n {
      DigitPrefixExact(t, n);
    }
    if NumberThenRest(t, sep).Some? {
      assert NumberThen(t, DigitPrefix(t), sep);
    }
  }

  /** A match of the groups reads t1 with the greedy run lengths. */
  lemma MatchGroupsShape(t1: string) returns (n1: nat, n2: nat, n3: nat)
    requires MatchGroups(t1).Some?
    ensures GroupsAt(t1, n1, n2, n3)
  {
    NumberThenRestIff(t1, ' ');
    n1 := DigitPrefix(t1);
    var t2 := t1[n1 + 1..];
    NumberThenRestIff(t2, '/');
    n2 := DigitPrefix(t2);
    n3 := DigitPrefix(t2[n2 + 1..]);
  }

  /** Any reading of t1 with the groups' shape makes the groups match. */
  lemma ShapeMatchesGroups(t1: string, n1: nat, n2: nat, n3: nat)
    requires GroupsAt(t1, n1, n2, n3)
    ensures MatchGroups(t1).Some?
  {
    NumberThenRestIff(t1, ' ');
    var t2 := t1[n1 + 1..];
    NumberThenRestIff(t2, '/');
    DigitPrefixAtLeast(t2[n2 + 1..], n3);
  }

  /** The groups match at the start of t1 exactly when t1 has their shape. */
  lemma MatchGroupsIff(t1: string)
    ensures MatchGroups(t1).Some? <==> exists n1: nat, n2: nat, n3: nat :: GroupsAt(t1, n1, n2, n3)
  {
    if MatchGroups(t1).Some? {
      var n1, n2, n3 := MatchGroupsShape(t1);
    }
    if exists n1: nat, n2: nat, n3: nat :: GroupsAt(t1, n1, n2, n3) {
      var n1: nat, n2: nat, n3: nat :| GroupsAt(t1, n1, n2, n3);
      ShapeMatchesGroups(t1, n1, n2, n3);
    }
  }

  /** The pattern matches at the start of t exactly when t opens with the header shape. */
  lemma MatchPrefixIffHeader(t: string)
    ensures MatchPrefix(t).Some? <==> exists n1: nat, n2: nat, n3: nat :: HeaderAt(t, n1, n2, n3)
  {
    if StartsWithLabel(t) {
      MatchGroupsIff(t[|Label|..]);
      if MatchPrefix(t).Some? {
        var n1: nat, n2: nat, n3: nat :| GroupsAt(t[|Label|..], n1, n2, n3);
        assert HeaderAt(t, n1, n2, n3);
      }
      if exists n1: nat, n2: nat, n3: nat :: HeaderAt(t, n1, n2, n3) {
        var n1: nat, n2: nat, n3: nat :| HeaderAt(t, n1, n2, n3);
        assert GroupsAt(t[|Label|..], n1, n2, n3);
      }
    }
  }

  /** The least position in [i, hi] where the test holds, if any. */
  function FirstWhere(test: nat -> bool, i: nat, hi: nat): (k: Option<nat>)
    requires i <= hi + 1
    ensures k.Some? ==> i <= k.value <= hi && test(k.value) && forall j | i <= j < k.value :: !test(j)
    ensures k.None? ==> forall j | i <= j <= hi :: !test(j)
    decreases hi + 1 - i
  {
    if i > hi then None
    else if test(i) then Some(i)
    else FirstWhere(test, i + 1, hi)
  }

  /** The leftmost match in s, with its position: what String.prototype.match returns for a
      pattern without the global flag. */
  function FirstMatch(s: string): (r: Option<(nat, Groups)>)
    ensures r.Some? ==> r.value.0 <= |s| && MatchAt(s, r.value.0) == Some(r.value.1)
    ensures r.Some? ==> forall j | 0 <= j < r.value.0 :: MatchAt(s, j).None?
    ensures r.None? ==> forall j | 0 <= j <= |s| :: MatchAt(s, j).None?
  {
    var test := (j: nat) => j <= |s| && MatchAt(s, j).Some?;
    var k := FirstWhere(test, 0, |s|);
    assert forall j: nat | j <= |s| :: test(j) == MatchAt(s, j).Some?;
    if k.Some? then Some((k.value, MatchAt(s, k.value).value)) else None
  }

  /** text.replace(/,/g, ''). */
  function StripCommas(s: string): (r: string)
    ensures forall k | 0 <= k < |r| :: r[k] != ','
    ensures AllDigits(s) ==> r == s
  {
    if s == [] then []
    else
      var front := StripCommas(s[..|s| - 1]);
      assert AllDigits(s) ==> AllDigits(s[..|s| - 1]) && front == s[..|s| - 1];
      if s[|s| - 1] == ',' then front else front + [s[|s| - 1]]
  }

  /** What the service takes from a message: round number, points and max points. */
  datatype ParsedScore = ParsedScore(roundNumber: nat, points: nat, maxPoints: nat)

  /** The parsing step of processScore: the first match of the pattern and parseInt of its groups (the comma
      stripping runs on digit-only groups, where it changes nothing). */
  function Parse(text: string): (r: Option<ParsedScore>)
    ensures r.Some? <==> exists i | 0 <= i <= |text| :: MatchAt(text, i).Some?
  {
    match FirstMatch(text)
    case None => None
    case Some((_, g)) =>
      Some(ParsedScore(DecimalValue(g.round), DecimalValue(StripCommas(g.points)), DecimalValue(StripCommas(g.maxPoints))))
  }

  /** A message yields a score exactly when it contains the header shape somewhere. */
  lemma ParseIffHeader(text: string)
    ensures Parse(text).Some? <==> ContainsHeader(text)
  {
    if Parse(text).Some? {
      var i := FirstMatch(text).value.0;
      MatchPrefixIffHeader(text[i..]);
    }
    if ContainsHeader(text) {
      var i: nat, n1: nat, n2: nat, n3: nat :| i <= |text| && HeaderAt(text[i..], n1, n2, n3);
      MatchPrefixIffHeader(text[i..]);
      assert MatchAt(text, i).Some?;
    }
  }

  /** The header a game shares: `TimeGuessr #<round> <points>/<max>`. */
  function HeaderText(p: ParsedScore): string
  {
    Label + (Decimal(p.roundNumber) + (" " + (Decimal(p.points) + ("/" + Decimal(p.maxPoints)))))
  }

  /** The label is recognised and stripped whatever follows it. */
  lemma StartsWithLabelOf(t1: string)
    ensures StartsWithLabel(Label + t1) && (Label + t1)[|Label|..] == t1
  {
  }

  /** A numeral followed by the separator is split off at the separator. */
  lemma NumberThenRestOf(d: string, sep: char, rest: string)
    requires AllDigits(d) && |d| > 0 && !IsDigit(sep)
    ensures NumberThenRest(d + ([sep] + rest), sep) == Some((d, rest))
  {
    var t := d + ([sep] + rest);
    DigitPrefixOf(d, [sep] + rest);
    assert t[..|d|] == d && t[|d| + 1..] == rest;
  }

  /** The pattern, anchored at the start of a header followed by a non-digit, captures the three numerals. */
  lemma MatchPrefixHeaderText(p: ParsedScore, rest: string)
    requires rest == [] || !IsDigit(rest[0])
    ensures MatchPrefix(HeaderText(p) + rest) == Some(Groups(Decimal(p.roundNumber), Decimal(p.points), Decimal(p.maxPoints)))
  {
    var d1, d2, d3 := Decimal(p.roundNumber), Decimal(p.points), Decimal(p.maxPoints);
    var t3 := d3 + rest;
    var t2 := d2 + ("/" + t3);
    var t1 := d1 + (" " + t2);
    assert HeaderText(p) + rest == Label + t1;
    StartsWithLabelOf(t1);
    MatchGroupsOf(d1, d2, d3, rest);
  }

  /** The groups of a well-formed header body are its three numerals. */
  lemma MatchGroupsOf(d1: string, d2: string, d3: string, rest: string)
    requires AllDigits(d1) && |d1| > 0 && AllDigits(d2) && |d2| > 0 && AllDigits(d3) && |d3| > 0
    requires rest == [] || !IsDigit(rest[0])
    ensures MatchGroups(d1 + (" " + (d2 + ("/" + (d3 + rest))))) == Some(Groups(d1, d2, d3))
  {
    var t3 := d3 + rest;
    NumberThenRestOf(d1, ' ', d2 + ("/" + t3));
    NumberThenRestOf(d2, '/', t3);
    DigitPrefixOf(d3, rest);
    assert t3[..|d3|] == d3;
  }

  /** Round trip: a message that starts with the header of p, followed by anything that does
      not extend the last number, parses back to p. */
  lemma ParseHeaderText(p: ParsedScore, rest: string)
    requires rest == [] || !IsDigit(rest[0])
    ensures Parse(HeaderText(p) + rest) == Some(p)
  {
    var g := Groups(Decimal(p.roundNumber), Decimal(p.points), Decimal(p.maxPoints));
    MatchPrefixHeaderText(p, rest);
    FirstMatchAtStart(HeaderText(p) + rest, g);
    DecimalValueOfDecimal(p.roundNumber);
    DecimalValueOfDecimal(p.points);
    DecimalValueOfDecimal(p.maxPoints);
  }

  /** A match at the very start is the first match. */
  lemma FirstMatchAtStart(s: string, g: Groups)
    requires MatchPrefix(s) == Some(g)
    ensures FirstMatch(s) == Some((0, g))
  {
    assert s[0..] == s;
  }

  /** The accuracy of processScore on exact rationals: Math.round(points / maxPoints * 100), halves rounded up.
      The result is the integer r with r - 1/2 <= 100 * points / maxPoints < r + 1/2. */
  function RoundedPercent(points: nat, maxPoints: nat): (r: nat)
    requires maxPoints > 0
    ensures (2 * r - 1) * maxPoints <= 200 * points < (2 * r + 1) * maxPoints
    ensures points <= maxPoints ==> r <= 100
  {
    var n, d := 200 * points + maxPoints, 2 * maxPoints;
    var q := n / d;
    DivisionBounds(n, d);
    assert (2 * q - 1) * maxPoints == d * q - maxPoints;
    assert (2 * q + 1) * maxPoints == d * q + maxPoints;
    QuotientBelow(n, d, 101);
    q
  }

  /** The quotient of a division by a positive number, times it, lies within one step below n. */
  lemma DivisionBounds(n: nat, d: nat)
    requires d > 0
    ensures d * (n / d) <= n < d * (n / d) + d
  {
  }

  /** A number below k steps of d has a quotient below k. */
  lemma QuotientBelow(n: nat, d: nat, k: nat)
    requires d > 0
    ensures n < k * d ==> n / d < k
  {
    DivisionBounds(n, d);
    if n < k * d {
      CancelPositiveFactor(n / d, k, d);
    }
  }

  /** Multiplying by a positive number keeps a strict order. */
  lemma CancelPositiveFactor(x: int, y: int, m: int)
    requires m > 0 && x * m < y * m
    ensures x < y
  {
  }

  /** Only one integer lies within half of 100 * points / maxPoints on the rounding side. */
  lemma RoundedPercentUnique(points: nat, maxPoints: nat, r: int)
    requires maxPoints > 0
    requires (2 * r - 1) * maxPoints <= 200 * points < (2 * r + 1) * maxPoints
    ensures r == RoundedPercent(points, maxPoints)
  {
    var q: int := RoundedPercent(points, maxPoints);
    CancelPositiveFactor(2 * r - 1, 2 * q + 1, maxPoints);
    CancelPositiveFactor(2 * q - 1, 2 * r + 1, maxPoints);
  }

  /** The accuracy stored with a score: a whole percentage, or NaN/Infinity when max points is 0. */
  function AccuracyOf(points: nat, maxPoints: nat): (a: Accuracy)
    ensures a.NotFinite? <==> maxPoints == 0
    ensures a.Percent? ==> a.value == RoundedPercent(points, maxPoints)
  {
    if maxPoints == 0 then NotFinite else Percent(RoundedPercent(points, maxPoints))
  }

  /** The message fields the service reads; an absent field is the empty string. */
  datatype Message = Message(body: string, author: string, from: string)

  /** The contact fields the service reads; an absent field is the empty string. */
  datatype Contact = Contact(pushname: string, number: string)

  /** The sender of processScore: message.author || message.from. */
  function Sender(m: Message): (w: string)
    ensures w == m.author || w == m.from
    ensures m.author != "" ==> w == m.author
    ensures w == "" <==> m.author == "" && m.from == ""
  {
    if m.author != "" then m.author else m.from
  }

  /** The display name of processScore: contact.pushname || contact.number || 'Unknown Player'; never empty. */
  function DisplayName(c: Contact): (name: string)
    ensures name != ""
    ensures c.pushname != "" ==> name == c.pushname
    ensures c.pushname == "" && c.number != "" ==> name == c.number
    ensures c.pushname == "" && c.number == "" ==> name == "Unknown Player"
  {
    if c.pushname != "" then c.pushname
    else if c.number != "" then c.number
    else "Unknown Player"
  }

  /** The value processScore returns for an accepted score. */
  datatype Submission = Submission(score: ScoreRow, playerName: string)

  /** processScore: parse; drop the message when it has no header; drop it when the sender
      already has a score for the round (the player row is then not touched); otherwise upsert
      the sender and append exactly one score row carrying the sender's id. */
  method ProcessScore(db: Database, message: Message, contact: Contact, now: int) returns (r: Option<Submission>)
    requires db.Valid()
    modifies db
    ensures db.Valid()
    ensures old(OneScorePerRound(db.players, db.scores)) ==> OneScorePerRound(db.players, db.scores)
    ensures Parse(message.body).None? ==> r.None? && unchanged(db)
    ensures Parse(message.body).Some? && old(HasSubmittedToday(db.players, db.scores, Sender(message), Parse(message.body).value.roundNumber)) ==>
              r.None? && unchanged(db)
    ensures Parse(message.body).Some? && !old(HasSubmittedToday(db.players, db.scores, Sender(message), Parse(message.body).value.roundNumber)) ==>
              var p := Parse(message.body).value;
              var w := Sender(message);
              && db.players == PlayerUpsert(old(db.players), old(db.nextPlayerId), w, DisplayName(contact))
              && db.nextPlayerId == old(db.nextPlayerId) + 1
              && r == Some(Submission(ScoreRow(db.players[w].id, p.roundNumber, p.points, AccuracyOf(p.points, p.maxPoints), now),
                                      DisplayName(contact)))
              && db.scores == old(db.scores) + [r.value.score]
  {
    var parsed := Parse(message.body);
    if parsed.None? {
      return None;
    }
    var roundNumber, points, maxPoints := parsed.value.roundNumber, parsed.value.points, parsed.value.maxPoints;
    var accuracy := AccuracyOf(points, maxPoints);
    var sender := Sender(message);
    var playerName := DisplayName(contact);

    if HasSubmittedToday(db.players, db.scores, sender, roundNumber) {
      return None;
    }
    ghost var players0, scores0, nextId0 := db.players, db.scores, db.nextPlayerId;
    var player := db.FindOrCreatePlayer(sender, playerName);
    var saved := db.CreateScore(player.id, roundNumber, points, accuracy, now);
    if OneScorePerRound(players0, scores0) {
      SubmitKeepsOneScorePerRound(players0, scores0, nextId0, sender, playerName, saved);
    }
    r := Some(Submission(saved, playerName));
  }
}
