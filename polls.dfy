/**
 * The polls page: folding the `poll_votes` rows into per-poll, per-option
 * counts and the signed-in user's own choices; totals and rounded
 * percentages; checking and inserting a new poll; and the admin form's list
 * of option strings, which never has fewer than two entries.
 */
module Polls {
  import opened Wrappers
  import opened JsText
  import Seqs
  import opened Tables

  type PollId = string

  /** A row of `poll_votes`. The option index is not checked against the poll's options. */
  datatype Vote = Vote(pollId: PollId, userId: UserId, optionIndex: int)

  /** Per poll, option index to number of votes (`voteCounts`). */
  type VoteCounts = map<PollId, map<int, nat>>

  /** Per poll, the option index the signed-in user chose (`userVotes`). */
  type UserVotes = map<PollId, int>

  // ---------------------------------------------------------------------------
  // Aggregation (the effect that runs whenever `votes` or `user` changes)
  // ---------------------------------------------------------------------------

  /** What one pass of the loop body does to the counts: create the poll's entry if absent, then add one. */
  function CountVote(counts: VoteCounts, vote: Vote): VoteCounts
  {
    var inner := if vote.pollId in counts then counts[vote.pollId] else map[];
    var before := if vote.optionIndex in inner then inner[vote.optionIndex] else 0;
    counts[vote.pollId := inner[vote.optionIndex := before + 1]]
  }

  /** What one pass of the loop body does to the user's choices: a row of the user overwrites the poll's entry. */
  function RecordUserVote(userVotes: UserVotes, vote: Vote, user: Option<UserId>): UserVotes
  {
    if user.Some? && vote.userId == user.value then userVotes[vote.pollId := vote.optionIndex] else userVotes
  }

  /** The counts after the loop has visited every row of `votes`, in list order. */
  function CountAll(votes: seq<Vote>): VoteCounts
  {
    if votes == [] then map[] else CountVote(CountAll(votes[..|votes| - 1]), votes[|votes| - 1])
  }

  /** The user's choices after the loop has visited every row of `votes`, in list order. */
  function UserVotesOf(votes: seq<Vote>, user: Option<UserId>): UserVotes
  {
    if votes == [] then map[] else RecordUserVote(UserVotesOf(votes[..|votes| - 1], user), votes[|votes| - 1], user)
  }

  /** The vote-count effect: one pass over the rows that fills both dictionaries. */
  method AggregateVotes(votes: seq<Vote>, user: Option<UserId>) returns (counts: VoteCounts, userVotes: UserVotes)
    ensures counts == CountAll(votes)
    ensures userVotes == UserVotesOf(votes, user)
  {
    counts := map[];
    userVotes := map[];
    for k := 0 to |votes|
      invariant counts == CountAll(votes[..k])
      invariant userVotes == UserVotesOf(votes[..k], user)
    {
      var vote := votes[k];
      if vote.pollId !in counts {
        counts := counts[vote.pollId := map[]];
      }
      var before := if vote.optionIndex in counts[vote.pollId] then counts[vote.pollId][vote.optionIndex] else 0;
      counts := counts[vote.pollId := counts[vote.pollId][vote.optionIndex := before + 1]];
      if user.Some? && vote.userId == user.value {
        userVotes := userVotes[vote.pollId := vote.optionIndex];
      }
      assert votes[..k + 1][..k] == votes[..k];
    }
    assert votes[..|votes|] == votes;
  }

  // ---------------------------------------------------------------------------
  // Reference counts over the rows
  // ---------------------------------------------------------------------------

  /** The number of rows of `votes` for poll `pollId`, whatever their option index. */
  function RowsFor(votes: seq<Vote>, pollId: PollId): nat
  {
    if votes == [] then 0
    else
      var here := if votes[0].pollId == pollId then 1 else 0;
      here + RowsFor(votes[1..], pollId)
  }

  /** The number of rows of `votes` for poll `pollId` and option `index`. */
  function RowsForOption(votes: seq<Vote>, pollId: PollId, index: int): nat
  {
    if votes == [] then 0
    else
      var here := if votes[0].pollId == pollId && votes[0].optionIndex == index then 1 else 0;
      here + RowsForOption(votes[1..], pollId, index)
  }

  lemma {:induction false} RowsAppend(votes: seq<Vote>, vote: Vote, pollId: PollId, index: int)
    ensures RowsFor(votes + [vote], pollId) == RowsFor(votes, pollId) + (if vote.pollId == pollId then 1 else 0)
    ensures RowsForOption(votes + [vote], pollId, index)
         == RowsForOption(votes, pollId, index) + (if vote.pollId == pollId && vote.optionIndex == index then 1 else 0)
  {
    if votes != [] {
      assert (votes + [vote])[1..] == votes[1..] + [vote];
      RowsAppend(votes[1..], vote, pollId, index);
    }
  }

  /** `voteCounts[pollId]?.[index] || 0`: the count shown next to an option. */
  function CountOf(counts: VoteCounts, pollId: PollId, index: int): nat
  {
    if pollId in counts && index in counts[pollId] then counts[pollId][index] else 0
  }

  /** After aggregation, each option's count is the number of rows for that poll and option. */
  lemma {:induction false} CountMatchesRows(votes: seq<Vote>, pollId: PollId, index: int)
    ensures CountOf(CountAll(votes), pollId, index) == RowsForOption(votes, pollId, index)
    ensures pollId in CountAll(votes) <==> RowsFor(votes, pollId) > 0
  {
    if votes != [] {
      var front, last := votes[..|votes| - 1], votes[|votes| - 1];
      assert votes == front + [last];
      CountMatchesRows(front, pollId, index);
      RowsAppend(front, last, pollId, index);
    }
  }

  // ---------------------------------------------------------------------------
  // Totals and percentages
  // ---------------------------------------------------------------------------

  /** The sum of the values of a map, in no particular key order (`Object.values(m).reduce(+, 0)`). */
  ghost function SumValues(m: map<int, nat>): nat
    decreases |m|
  {
    if exists k :: k in m then
      var k :| k in m;
      assert |m - {k}| == |m| - 1 by { assert m.Keys - {k} == (m - {k}).Keys; }
      m[k] + SumValues(m - {k})
    else
      0
  }

  /** The sum does not depend on which key is taken out first. */
  lemma {:induction false} SumValuesRemove(m: map<int, nat>, k: int)
    requires k in m
    ensures SumValues(m) == m[k] + SumValues(m - {k})
    decreases |m|
  {
    var j :| j in m && SumValues(m) == m[j] + SumValues(m - {j});
    if j != k {
      assert |m - {j}| < |m| && |m - {k}| < |m| by {
        assert (m - {j}).Keys == m.Keys - {j};
        assert (m - {k}).Keys == m.Keys - {k};
      }
      SumValuesRemove(m - {j}, k);
      SumValuesRemove(m - {k}, j);
      assert m - {j} - {k} == m - {k} - {j};
    }
  }

  /** Adding one vote to an option adds one to the sum, whether or not the option had an entry. */
  lemma SumValuesIncrement(m: map<int, nat>, k: int)
    ensures SumValues(m[k := (if k in m then m[k] else 0) + 1]) == SumValues(m) + 1
  {
    var m' := m[k := (if k in m then m[k] else 0) + 1];
    SumValuesRemove(m', k);
    if k in m {
      SumValuesRemove(m, k);
      assert m' - {k} == m - {k};
    } else {
      assert m' - {k} == m;
    }
  }

  /** `getTotalVotes`: the sum of a poll's option counts, 0 for a poll without an entry. */
  ghost function TotalVotes(counts: VoteCounts, pollId: PollId): nat
  {
    if pollId in counts then SumValues(counts[pollId]) else 0
  }

  /**
   * After aggregation, a poll's total is the number of its rows, including rows
   * whose option index lies outside the poll's options; a poll without rows has total 0.
   */
  lemma {:induction false} TotalMatchesRows(votes: seq<Vote>, pollId: PollId)
    ensures TotalVotes(CountAll(votes), pollId) == RowsFor(votes, pollId)
  {
    if votes != [] {
      var front, last := votes[..|votes| - 1], votes[|votes| - 1];
      assert votes == front + [last];
      TotalMatchesRows(front, pollId);
      RowsAppend(front, last, pollId, last.optionIndex);
      if last.pollId == pollId {
        var counts := CountAll(front);
        var inner := if pollId in counts then counts[pollId] else map[];
        SumValuesIncrement(inner, last.optionIndex);
      }
    }
  }

  /** An option's count never exceeds its poll's total. */
  lemma CountAtMostTotal(counts: VoteCounts, pollId: PollId, index: int)
    ensures CountOf(counts, pollId, index) <= TotalVotes(counts, pollId)
  {
    if pollId in counts && index in counts[pollId] {
      SumValuesRemove(counts[pollId], index);
    }
  }

  /**
   * `Math.round(count / total * 100)` in exact arithmetic, that is 100·count/total
   * rounded half up, and 0 when `total` is 0.
   */
  function RoundedPercent(count: nat, total: nat): (r: nat)
    ensures total == 0 ==> r == 0
    ensures total > 0 ==> 2 * total * r <= 200 * count + total < 2 * total * (r + 1)
    ensures count <= total ==> r <= 100
  {
    if total == 0 then 0
    else
      var a, b := 200 * count + total, 2 * total;
      var r := a / b;
      DivisionBounds(a, b);
      assert count <= total ==> r <= 100 by {
        if count <= total {
          assert a < b * 101;
          CancelFactor(b, r, 101);
        }
      }
      r
  }

  /** Euclidean division brackets the dividend between two consecutive multiples of the divisor. */
  lemma DivisionBounds(a: nat, b: nat)
    requires b > 0
    ensures b * (a / b) <= a < b * (a / b + 1)
  {
    assert a == b * (a / b) + a % b;
  }

  lemma CancelFactor(b: nat, x: nat, y: nat)
    requires b > 0 && b * x < b * y
    ensures x < y
  {
  }

  /** `getVotePercentage`: 0 for a poll without votes, otherwise between 0 and 100. */
  ghost function VotePercentage(counts: VoteCounts, pollId: PollId, index: int): (r: nat)
    ensures TotalVotes(counts, pollId) == 0 ==> r == 0
    ensures r <= 100
  {
    CountAtMostTotal(counts, pollId, index);
    RoundedPercent(CountOf(counts, pollId, index), TotalVotes(counts, pollId))
  }

  /**
   * A poll "Venue?" with options "Home" and "Hall" and three votes 0, 0, 1 shows
   * counts 2 and 1, a total of 3 and percentages 67 and 33.
   */
  lemma VenueExample()
    ensures var votes := [Vote("venue", "ann", 0), Vote("venue", "ben", 0), Vote("venue", "cy", 1)];
            var counts := CountAll(votes);
            && CountOf(counts, "venue", 0) == 2 && CountOf(counts, "venue", 1) == 1
            && TotalVotes(counts, "venue") == 3
            && VotePercentage(counts, "venue", 0) == 67 && VotePercentage(counts, "venue", 1) == 33
  {
    var votes := [Vote("venue", "ann", 0), Vote("venue", "ben", 0), Vote("venue", "cy", 1)];
    CountMatchesRows(votes, "venue", 0);
    CountMatchesRows(votes, "venue", 1);
    TotalMatchesRows(votes, "venue");
  }

  /**
   * A row whose option index names no option still counts towards the total:
   * a two-option poll with one vote for option 0 and one for option 5 has a
   * total of 2, so option 0 shows 50%.
   */
  lemma OutOfRangeRowCounted()
    ensures var votes := [Vote("venue", "ann", 0), Vote("venue", "ben", 5)];
            var counts := CountAll(votes);
            && CountOf(counts, "venue", 0) == 1 && CountOf(counts, "venue", 1) == 0
            && TotalVotes(counts, "venue") == 2
            && VotePercentage(counts, "venue", 0) == 50
  {
    var votes := [Vote("venue", "ann", 0), Vote("venue", "ben", 5)];
    CountMatchesRows(votes, "venue", 0);
    CountMatchesRows(votes, "venue", 1);
    TotalMatchesRows(votes, "venue");
  }

  // ---------------------------------------------------------------------------
  // The signed-in user's own votes
  // ---------------------------------------------------------------------------

  /** `hasVoted`: the user's choice for the poll is defined. */
  predicate HasVoted(userVotes: UserVotes, pollId: PollId)
  {
    pollId in userVotes
  }

  /** The user has voted on a poll exactly when a user is signed in and some row for the poll carries their id. */
  lemma {:induction false} HasVotedIffOwnRow(votes: seq<Vote>, user: Option<UserId>, pollId: PollId)
    ensures HasVoted(UserVotesOf(votes, user), pollId)
        <==> user.Some? && exists k :: 0 <= k < |votes| && votes[k].pollId == pollId && votes[k].userId == user.value
  {
    if votes != [] {
      var front, last := votes[..|votes| - 1], votes[|votes| - 1];
      HasVotedIffOwnRow(front, user, pollId);
      if user.Some? {
        if exists k :: 0 <= k < |front| && front[k].pollId == pollId && front[k].userId == user.value {
          var k :| 0 <= k < |front| && front[k].pollId == pollId && front[k].userId == user.value;
          assert votes[k] == front[k];
        }
        if exists k :: 0 <= k < |votes| && votes[k].pollId == pollId && votes[k].userId == user.value {
          var k :| 0 <= k < |votes| && votes[k].pollId == pollId && votes[k].userId == user.value;
          if k < |front| {
            assert front[k] == votes[k];
          }
        }
      }
    }
  }

  /** When a user has several rows for a poll, the last one in list order is their recorded choice. */
  lemma {:induction false} LastOwnRowWins(votes: seq<Vote>, user: UserId, pollId: PollId, k: nat)
    requires k < |votes| && votes[k].pollId == pollId && votes[k].userId == user
    requires forall j :: k < j < |votes| ==> !(votes[j].pollId == pollId && votes[j].userId == user)
    ensures pollId in UserVotesOf(votes, Some(user))
    ensures UserVotesOf(votes, Some(user))[pollId] == votes[k].optionIndex
  {
    var front, last := votes[..|votes| - 1], votes[|votes| - 1];
    if k < |votes| - 1 {
      forall j | k < j < |front|
        ensures !(front[j].pollId == pollId && front[j].userId == user)
      {
        assert front[j] == votes[j];
      }
      LastOwnRowWins(front, user, pollId, k);
    }
  }

  // ---------------------------------------------------------------------------
  // Loading polls
  // ---------------------------------------------------------------------------

  /** The JSON value stored in the `options` column. */
  datatype Json =
    | JNull
    | JBool(b: bool)
    | JNumber(n: int)
    | JString(s: string)
    | JArray(items: seq<Json>)
    | JObject(fields: seq<(string, Json)>)

  /** A row of `polls` as the database returns it. */
  datatype PollRow = PollRow(id: PollId, question: string, options: Json, createdAt: int, closesAt: Option<int>)

  /** A poll as the page holds it. The cast to `string[]` does not inspect the elements. */
  datatype Poll = Poll(id: PollId, question: string, options: seq<Json>, createdAt: int, closesAt: Option<int>)

  /** The options cast of `fetchPolls`: an array keeps its elements, anything else becomes the empty list. */
  function CastPoll(row: PollRow): (p: Poll)
    ensures p.id == row.id && p.question == row.question && p.createdAt == row.createdAt && p.closesAt == row.closesAt
    ensures p.options == if row.options.JArray? then row.options.items else []
  {
    Poll(row.id, row.question, if row.options.JArray? then row.options.items else [], row.createdAt, row.closesAt)
  }

  /** `fetchPolls` applied to the rows returned (an absent result is the empty list): one poll per row, in order. */
  function LoadPolls(rows: seq<PollRow>): (polls: seq<Poll>)
    ensures |polls| == |rows|
    ensures forall k :: 0 <= k < |rows| ==> polls[k] == CastPoll(rows[k])
    ensures forall k :: 0 <= k < |rows| && !rows[k].options.JArray? ==> polls[k].options == []
  {
    seq(|rows|, k requires 0 <= k < |rows| => CastPoll(rows[k]))
  }

  // ---------------------------------------------------------------------------
  // Creating a poll
  // ---------------------------------------------------------------------------

  /** `newPollOptions.filter(opt => opt.trim() !== "")`: the non-blank options, untrimmed, in order. */
  function NonBlankOptions(options: seq<string>): (r: seq<string>)
    ensures Seqs.IsSubsequence(r, options)
    ensures forall o :: o in r ==> !IsBlank(o)
    ensures forall o :: multiset(r)[o] == if IsBlank(o) then 0 else multiset(options)[o]
  {
    if options == [] then []
    else
      var rest := NonBlankOptions(options[1..]);
      assert options == [options[0]] + options[1..];
      TrimEmptyIffBlankAt(options[0]);
      if Trim(options[0]) != "" then
        assert ([options[0]] + rest)[1..] == rest;
        [options[0]] + rest
      else
        rest
  }

  /** The row `handleCreatePoll` inserts into `polls`. */
  datatype PollDraft = PollDraft(question: string, options: seq<string>, createdBy: UserId)

  /** The checks `handleCreatePoll` makes before inserting. */
  datatype PollCheck = SignInRequired | InvalidPoll | Ready(draft: PollDraft)

  /** The checks of `handleCreatePoll`, in the order the page makes them. */
  function CheckNewPoll(user: Option<UserId>, question: string, options: seq<string>): PollCheck
  {
    if user.None? then SignInRequired
    else
      var valid := NonBlankOptions(options);
      if Trim(question) == "" || |valid| < 2 then InvalidPoll
      else Ready(PollDraft(question, valid, user.value))
  }

  /**
   * Without a user the page sends the visitor to sign in; a blank question or
   * fewer than two non-blank options is rejected; otherwise the question as
   * typed, the non-blank options and the user's id are ready to insert.
   */
  lemma CheckNewPollOutcomes(user: Option<UserId>, question: string, options: seq<string>)
    ensures CheckNewPoll(user, question, options).SignInRequired? <==> user.None?
    ensures CheckNewPoll(user, question, options).InvalidPoll?
        <==> user.Some? && (IsBlank(question) || |NonBlankOptions(options)| < 2)
    ensures CheckNewPoll(user, question, options).Ready? ==>
      && CheckNewPoll(user, question, options).draft == PollDraft(question, NonBlankOptions(options), user.value)
      && |CheckNewPoll(user, question, options).draft.options| >= 2
  {
    TrimEmptyIffBlank();
  }

  /** How a call of `handleCreatePoll` ended. */
  datatype CreateOutcome = SentToSignIn | Rejected | InsertFailed | Created

  /**
   * The admin's poll form: the question, the list of option inputs, and the
   * `polls` table that creation writes to.
   */
  class PollForm {
    var question: string
    var options: seq<string>
    var polls: seq<PollDraft>

    /** The option list never has fewer than two entries. */
    ghost predicate Valid()
      reads this
    {
      |options| >= 2
    }

    /** The form starts with an empty question and two empty options. */
    constructor (table: seq<PollDraft>)
      ensures Valid()
      ensures question == "" && options == ["", ""] && polls == table
    {
      question := "";
      options := ["", ""];
      polls := table;
    }

    /** `addOption`: one more empty option at the end. */
    method AddOption()
      requires Valid()
      modifies this`options
      ensures Valid()
      ensures options == old(options) + [""]
    {
      options := options + [""];
    }

    /**
     * `removeOption`: with more than two options, drops the one at `index` and
     * keeps the others in order; with two it does nothing. An index that is not
     * a position of the list removes nothing.
     */
    method RemoveOption(index: int)
      requires Valid()
      modifies this`options
      ensures Valid()
      ensures |old(options)| <= 2 ==> options == old(options)
      ensures |old(options)| > 2 && 0 <= index < |old(options)| ==>
        options == old(options)[..index] + old(options)[index + 1..]
      ensures !(0 <= index < |old(options)|) ==> options == old(options)
    {
      if |options| > 2 {
        if 0 <= index < |options| {
          options := options[..index] + options[index + 1..];
        }
      }
    }

    /** `updateOption`: replaces the option at `index`, the position of the input being edited. */
    method UpdateOption(index: nat, value: string)
      requires Valid() && index < |options|
      modifies this`options
      ensures Valid()
      ensures |options| == |old(options)| && options[index] == value
      ensures forall k :: 0 <= k < |options| && k != index ==> options[k] == old(options)[k]
    {
      options := options[index := value];
    }

    /**
     * `handleCreatePoll`. `inserted` is whether the database accepted the insert.
     * Only a successful insert changes anything: it adds the checked row to
     * `polls` and clears the form.
     */
    method CreatePoll(user: Option<UserId>, inserted: bool) returns (outcome: CreateOutcome)
      requires Valid()
      modifies this
      ensures Valid()
      ensures var check := CheckNewPoll(user, old(question), old(options));
        && (check.SignInRequired? ==> outcome == SentToSignIn)
        && (check.InvalidPoll? ==> outcome == Rejected)
        && (check.Ready? && !inserted ==> outcome == InsertFailed)
        && (check.Ready? && inserted ==> outcome == Created && polls == old(polls) + [check.draft]
                                         && question == "" && options == ["", ""])
      ensures outcome != Created ==> polls == old(polls) && question == old(question) && options == old(options)
    {
      var check := CheckNewPoll(user, question, options);
      if check.SignInRequired? {
        return SentToSignIn;
      }
      if check.InvalidPoll? {
        return Rejected;
      }
      if !inserted {
        return InsertFailed;
      }
      polls := polls + [check.draft];
      question := "";
      options := ["", ""];
      outcome := Created;
    }
  }
}
