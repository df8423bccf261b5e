/**
 * The hosting-API wrapper of src/network/github.py: the rate-limit report,
 * the choice of the freshest candidate repository for an application id,
 * and the download of one file through a ranked list of CDN mirrors, in up
 * to three rounds over the list.
 *
 * The HTTP client is replaced by its answers: one reply per candidate
 * repository, one reply for the rate-limit query, and, for a download, a
 * function from (round, endpoint rank) to the reply of that request.
 */
module GitHub {
  import opened Wrappers
  import opened Text

  type Bytes = seq<bv8>

  // ---------------------------------------------------------------------
  // Rate limit report (check_rate_limit)
  // ---------------------------------------------------------------------

  /** The fields of the "rate" object; a missing field is `None`. */
  datatype RateFields = RateFields(remaining: Option<int>, limit: Option<int>, reset: Option<int>, used: Option<int>)

  /** The decoded body: `Malformed` when decoding or reading it raises. */
  datatype RateBody = Malformed(reason: string) | RateJson(rate: Option<RateFields>)

  datatype RateReply = RateResponse(status: int, body: RateBody) | RateRaised(reason: string)

  /** The dictionary the report returns: the quota record, or `{"error": message}`. */
  datatype RateStatus =
    | RateInfo(limit: int, remaining: int, reset: int, used: int, resetFormatted: string, resetRelative: string)
    | RateError(message: string)

  /**
   * `time.strftime(..., time.localtime(t))`: the formatted local time, or the
   * text of the exception it raises for an epoch second outside the
   * platform's range. It depends on the C library and the time zone, so it is
   * an input.
   */
  type LocalTime = int -> Result<string, string>

  const StatusFailurePrefix := "GitHub rate limit check failed with status "
  const ExceptionPrefix := "Rate limit check failed: "

  const DefaultRemaining := 0
  const DefaultLimit := 60
  const DefaultReset := 0
  const DefaultUsed := 0

  /** `rate_limit.get("reset", 0)` of a readable body. */
  function ResetOf(rate: Option<RateFields>): int {
    if rate.Some? && rate.value.reset.Some? then rate.value.reset.value else DefaultReset
  }

  /** The chat platform's relative-time token for an epoch second. */
  function RelativeToken(reset: int): string {
    "<t:" + IntToString(reset) + ":R>"
  }

  /** Reads the epoch second back out of a relative-time token. */
  function ParseRelativeToken(t: string): Option<int> {
    if |t| >= 6 && t[..3] == "<t:" && t[|t| - 3..] == ":R>" then
      var mid := t[3..|t| - 3];
      if |mid| > 0 && (if mid[0] == '-' then IsDigits(mid[1..]) else IsDigits(mid))
      then Some(ParseInt(mid))
      else None
    else None
  }

  /** Reads the HTTP status back out of a status-failure message. */
  function ParseStatusFailure(message: string): Option<int> {
    if |message| > |StatusFailurePrefix| && message[..|StatusFailurePrefix|] == StatusFailurePrefix then
      var mid := message[|StatusFailurePrefix|..];
      if mid[0] == '-' then (if IsDigits(mid[1..]) then Some(ParseInt(mid)) else None)
      else if IsDigits(mid) then Some(ParseInt(mid)) else None
    else None
  }

  lemma RelativeTokenRoundTrip(reset: int)
    ensures ParseRelativeToken(RelativeToken(reset)) == Some(reset)
  {
    IntToStringRoundTrip(reset);
    var t := RelativeToken(reset);
    assert t[..3] == "<t:";
    assert t[|t| - 3..] == ":R>";
    assert t[3..|t| - 3] == IntToString(reset);
  }

  lemma StatusFailureRoundTrip(status: int)
    ensures ParseStatusFailure(StatusFailurePrefix + IntToString(status)) == Some(status)
  {
    IntToStringRoundTrip(status);
    var m := StatusFailurePrefix + IntToString(status);
    assert m[..|StatusFailurePrefix|] == StatusFailurePrefix;
    assert m[|StatusFailurePrefix|..] == IntToString(status);
  }

  /** A 200 reply whose body could be read. */
  predicate Readable(reply: RateReply) {
    reply.RateResponse? && reply.status == 200 && reply.body.RateJson?
  }

  /**
   * The report never raises: a transport error, a status other than 200, an
   * unreadable body or a reset the local-time formatting rejects gives an
   * error marker whose message says which; otherwise the quota with each
   * missing field defaulted.
   */
  function CheckRateLimit(reply: RateReply, localtime: LocalTime): (r: RateStatus)
    ensures r.RateError? <==> !(Readable(reply) && localtime(ResetOf(reply.body.rate)).Ok?)
    ensures reply.RateResponse? && reply.status != 200 ==> ParseStatusFailure(r.message) == Some(reply.status)
    ensures reply.RateRaised? ==> r.message == ExceptionPrefix + reply.reason
    ensures reply.RateResponse? && reply.status == 200 && reply.body.Malformed? ==>
              r.message == ExceptionPrefix + reply.body.reason
    ensures Readable(reply) && localtime(ResetOf(reply.body.rate)).Err? ==>
              r.message == ExceptionPrefix + localtime(ResetOf(reply.body.rate)).error
    ensures r.RateInfo? ==> ParseRelativeToken(r.resetRelative) == Some(r.reset) && localtime(r.reset) == Ok(r.resetFormatted)
  {
    match reply
    case RateRaised(reason) => RateError(ExceptionPrefix + reason)
    case RateResponse(status, body) =>
      if status != 200 then
        StatusFailureRoundTrip(status);
        RateError(StatusFailurePrefix + IntToString(status))
      else
        match body
        case Malformed(reason) => RateError(ExceptionPrefix + reason)
        case RateJson(rate) =>
          var f := rate.GetOr(RateFields(None, None, None, None));
          var reset := f.reset.GetOr(DefaultReset);
          match localtime(reset)
          case Err(reason) => RateError(ExceptionPrefix + reason)
          case Ok(formatted) =>
            RelativeTokenRoundTrip(reset);
            RateInfo(f.limit.GetOr(DefaultLimit), f.remaining.GetOr(DefaultRemaining), reset,
                     f.used.GetOr(DefaultUsed), formatted, RelativeToken(reset))
  }

  /** A field present in the "rate" object is reported as is; a missing one takes its default. */
  lemma RateLimitFields(reply: RateReply, localtime: LocalTime)
    requires Readable(reply) && localtime(ResetOf(reply.body.rate)).Ok?
    ensures var r := CheckRateLimit(reply, localtime);
            var f := reply.body.rate;
            && r.RateInfo?
            && r.remaining == (if f.Some? && f.value.remaining.Some? then f.value.remaining.value else 0)
            && r.limit == (if f.Some? && f.value.limit.Some? then f.value.limit.value else 60)
            && r.used == (if f.Some? && f.value.used.Some? then f.value.used.value else 0)
            && r.reset == (if f.Some? && f.value.reset.Some? then f.value.reset.value else 0)
            && r.resetFormatted == localtime(r.reset).value
  {
  }

  /** A 200 reply with remaining 10, limit 60, reset 1700000000 and used 50. */
  lemma RateLimitExample()
    ensures var r := CheckRateLimit(RateResponse(200, RateJson(Some(RateFields(Some(10), Some(60), Some(1700000000), Some(50))))),
                                    (t: int) => Ok("2023-11-14 22:13:20"));
            r.RateInfo? && r.remaining == 10 && r.limit == 60 && r.used == 50 && r.reset == 1700000000
            && r.resetFormatted == "2023-11-14 22:13:20" && |r.resetRelative| > 0
  {
  }

  // ---------------------------------------------------------------------
  // Repository selection (get_latest_repo_info)
  // ---------------------------------------------------------------------

  /**
   * The commit data of a branch reply. `date` is `None` when the author date
   * is missing or is not an ISO-8601 date: reading it raises before any
   * running variable is touched. `sha` is `None` when the commit has no
   * "sha": reading it raises only after the date and the repository name
   * were already recorded.
   */
  datatype Commit = Commit(date: Option<int>, sha: Option<string>)

  /** The branch query's outcome: a response (with "commit" when `commit` is `Some`) or an exception. */
  datatype BranchReply = BranchResponse(status: int, commit: Option<Commit>) | BranchRaised(reason: string)

  datatype Candidate = Candidate(repo: string, reply: BranchReply)

  datatype RepoInfo = RepoInfo(name: string, lastUpdate: int, sha: Option<string>)

  /** A 200 reply with "commit" and a readable date: the candidate takes part in the comparison. */
  predicate Accepted(c: Candidate) {
    c.reply.BranchResponse? && c.reply.status == 200 && c.reply.commit.Some? && c.reply.commit.value.date.Some?
  }

  /**
   * The candidates the selection can pick: every accepted one when `strict` is
   * false (the code as written), only those that also carry a sha when
   * `strict` is true (the corrected selection).
   */
  predicate Eligible(c: Candidate, strict: bool) {
    Accepted(c) && (strict ==> c.reply.commit.value.sha.Some?)
  }

  function DateOf(c: Candidate): int
    requires Accepted(c)
  {
    c.reply.commit.value.date.value
  }

  /** The running choice of the corrected reading: date, name and sha of one reply. */
  datatype Pick = Pick(date: int, repo: string, sha: Option<string>)

  function PickOf(c: Candidate): Pick
    requires Accepted(c)
  {
    Pick(DateOf(c), c.repo, c.reply.commit.value.sha)
  }

  /** Folds the candidates in list order, replacing the choice only on a strictly later date. */
  function Latest(cs: seq<Candidate>, strict: bool): Option<Pick>
    decreases |cs|
  {
    if cs == [] then None
    else
      var prev := Latest(cs[..|cs| - 1], strict);
      var c := cs[|cs| - 1];
      if Eligible(c, strict) && (prev.None? || DateOf(c) > prev.value.date) then Some(PickOf(c)) else prev
  }

  /** Candidate `k` is eligible, no eligible candidate is later, and every earlier eligible one is strictly older. */
  ghost predicate IsFirstLatest(cs: seq<Candidate>, k: int, strict: bool) {
    && 0 <= k < |cs|
    && Eligible(cs[k], strict)
    && (forall j :: 0 <= j < |cs| && Eligible(cs[j], strict) ==> DateOf(cs[j]) <= DateOf(cs[k]))
    && (forall j :: 0 <= j < k && Eligible(cs[j], strict) ==> DateOf(cs[j]) < DateOf(cs[k]))
  }

  /** No choice exactly when no candidate is eligible. */
  lemma {:induction false} LatestNoneIffNoneEligible(cs: seq<Candidate>, strict: bool)
    ensures Latest(cs, strict).None? <==> forall j :: 0 <= j < |cs| ==> !Eligible(cs[j], strict)
    decreases |cs|
  {
    if cs != [] {
      var init := cs[..|cs| - 1];
      LatestNoneIffNoneEligible(init, strict);
      assert forall j :: 0 <= j < |init| ==> init[j] == cs[j];
    }
  }

  /** The choice is the first candidate with the latest date, with that candidate's own date, name and sha. */
  lemma {:induction false} LatestIsFirstMaximum(cs: seq<Candidate>, strict: bool)
    ensures Latest(cs, strict).None? <==> forall j :: 0 <= j < |cs| ==> !Eligible(cs[j], strict)
    ensures Latest(cs, strict).Some? ==>
              exists k :: IsFirstLatest(cs, k, strict) && Latest(cs, strict).value == PickOf(cs[k])
    decreases |cs|
  {
    LatestNoneIffNoneEligible(cs, strict);
    if cs != [] {
      var init := cs[..|cs| - 1];
      var c := cs[|cs| - 1];
      LatestIsFirstMaximum(init, strict);
      var prev := Latest(init, strict);
      if Eligible(c, strict) && (prev.None? || DateOf(c) > prev.value.date) {
        if prev.Some? {
          var k :| IsFirstLatest(init, k, strict) && prev.value == PickOf(init[k]);
          NewLatest(cs, k, strict);
        } else {
          LatestNoneIffNoneEligible(init, strict);
          assert forall j :: 0 <= j < |init| ==> init[j] == cs[j];
        }
        assert IsFirstLatest(cs, |cs| - 1, strict);
      } else if prev.Some? {
        var k :| IsFirstLatest(init, k, strict) && prev.value == PickOf(init[k]);
        KeptLatest(cs, k, strict);
      }
    }
  }

  lemma NewLatest(cs: seq<Candidate>, k: int, strict: bool)
    requires |cs| > 0 && IsFirstLatest(cs[..|cs| - 1], k, strict)
    requires Eligible(cs[|cs| - 1], strict) && DateOf(cs[|cs| - 1]) > DateOf(cs[k])
    ensures IsFirstLatest(cs, |cs| - 1, strict)
  {
    var init := cs[..|cs| - 1];
    assert forall j :: 0 <= j < |init| ==> init[j] == cs[j];
  }

  lemma KeptLatest(cs: seq<Candidate>, k: int, strict: bool)
    requires |cs| > 0 && IsFirstLatest(cs[..|cs| - 1], k, strict)
    requires Eligible(cs[|cs| - 1], strict) ==> DateOf(cs[|cs| - 1]) <= DateOf(cs[k])
    ensures IsFirstLatest(cs, k, strict)
  {
    var init := cs[..|cs| - 1];
    assert forall j :: 0 <= j < |init| ==> init[j] == cs[j];
  }

  /** At most one candidate is the first latest one. */
  lemma FirstLatestUnique(cs: seq<Candidate>, k1: int, k2: int, strict: bool)
    requires IsFirstLatest(cs, k1, strict) && IsFirstLatest(cs, k2, strict)
    ensures k1 == k2
  {
  }

  /** A candidate that is not eligible changes nothing, wherever it stands in the list. */
  lemma {:induction false} IneligibleIsSkipped(before: seq<Candidate>, c: Candidate, after: seq<Candidate>, strict: bool)
    requires !Eligible(c, strict)
    ensures Latest(before + [c] + after, strict) == Latest(before + after, strict)
    decreases |after|
  {
    if after == [] {
      assert (before + [c])[..|before|] == before;
      assert before + [c] + after == before + [c];
      assert before + after == before;
    } else {
      var init := after[..|after| - 1];
      var last := after[|after| - 1];
      IneligibleIsSkipped(before, c, init, strict);
      assert (before + [c] + after)[..|before + [c] + after| - 1] == before + [c] + init;
      assert (before + after)[..|before + after| - 1] == before + init;
    }
  }

  /** Distinct eligible replies carry distinct dates. */
  ghost predicate DistinctDates(cs: seq<Candidate>, strict: bool) {
    forall c1, c2 :: c1 in cs && c2 in cs && Eligible(c1, strict) && Eligible(c2, strict) && c1 != c2
                     ==> DateOf(c1) != DateOf(c2)
  }

  lemma SameWinner(cs1: seq<Candidate>, k1: int, cs2: seq<Candidate>, k2: int, strict: bool)
    requires multiset(cs1) == multiset(cs2) && DistinctDates(cs1, strict)
    requires IsFirstLatest(cs1, k1, strict) && IsFirstLatest(cs2, k2, strict)
    ensures cs1[k1] == cs2[k2]
  {
    assert cs1[k1] in multiset(cs2);
    var m1 :| 0 <= m1 < |cs2| && cs2[m1] == cs1[k1];
    assert cs2[k2] in multiset(cs1);
    var m2 :| 0 <= m2 < |cs1| && cs1[m2] == cs2[k2];
    assert DateOf(cs2[m1]) <= DateOf(cs2[k2]);
    assert DateOf(cs1[m2]) <= DateOf(cs1[k1]);
  }

  lemma EligibleSurvivesPermutation(cs1: seq<Candidate>, cs2: seq<Candidate>, strict: bool)
    requires multiset(cs1) == multiset(cs2)
    requires exists j :: 0 <= j < |cs1| && Eligible(cs1[j], strict)
    ensures exists j :: 0 <= j < |cs2| && Eligible(cs2[j], strict)
  {
    var j :| 0 <= j < |cs1| && Eligible(cs1[j], strict);
    assert cs1[j] in multiset(cs2);
    var m :| 0 <= m < |cs2| && cs2[m] == cs1[j];
  }

  /** With pairwise distinct dates, the choice does not depend on the order of the candidates. */
  lemma OrderIrrelevantForDistinctDates(cs1: seq<Candidate>, cs2: seq<Candidate>, strict: bool)
    requires multiset(cs1) == multiset(cs2)
    requires DistinctDates(cs1, strict)
    ensures Latest(cs1, strict) == Latest(cs2, strict)
  {
    var l1, l2 := Latest(cs1, strict), Latest(cs2, strict);
    LatestNoneIffNoneEligible(cs1, strict);
    LatestNoneIffNoneEligible(cs2, strict);
    if l1.Some? {
      EligibleSurvivesPermutation(cs1, cs2, strict);
      LatestIsFirstMaximum(cs1, strict);
      LatestIsFirstMaximum(cs2, strict);
      var k1 :| IsFirstLatest(cs1, k1, strict) && l1.value == PickOf(cs1[k1]);
      var k2 :| IsFirstLatest(cs2, k2, strict) && l2.value == PickOf(cs2[k2]);
      SameWinner(cs1, k1, cs2, k2, strict);
    } else if l2.Some? {
      EligibleSurvivesPermutation(cs2, cs1, strict);
    }
  }

  /**
   * The selection as the code computes it: the three running variables of
   * lines 64-66, updated in lines 78-80 one after the other.
   */
  datatype Selection = Selection(latestDate: Option<int>, selectedRepo: Option<string>, selectedSha: Option<string>)

  /** One candidate of the loop. A reply without "sha" raises after the first two assignments. */
  function StepAsWritten(s: Selection, c: Candidate): Selection {
    if Accepted(c) && (s.latestDate.None? || DateOf(c) > s.latestDate.value) then
      var sha := c.reply.commit.value.sha;
      Selection(Some(DateOf(c)), Some(c.repo), if sha.Some? then sha else s.selectedSha)
    else s
  }

  function FoldAsWritten(cs: seq<Candidate>): (s: Selection)
    decreases |cs|
  {
    if cs == [] then Selection(None, None, None)
    else StepAsWritten(FoldAsWritten(cs[..|cs| - 1]), cs[|cs| - 1])
  }

  /** The date and the name follow `Latest`; the sha follows it whenever the chosen reply has one. */
  lemma {:induction false} FoldAsWrittenTracksLatest(cs: seq<Candidate>)
    ensures var s, l := FoldAsWritten(cs), Latest(cs, false);
            && (l.None? ==> s == Selection(None, None, None))
            && (l.Some? ==> s.latestDate == Some(l.value.date) && s.selectedRepo == Some(l.value.repo))
            && (l.Some? && l.value.sha.Some? ==> s.selectedSha == l.value.sha)
    decreases |cs|
  {
    if cs != [] {
      FoldAsWrittenTracksLatest(cs[..|cs| - 1]);
    }
  }

  /** `if selected_repo:` — an empty repository name reads as false. */
  function Finish(s: Selection): Option<RepoInfo> {
    match s
    case Selection(Some(date), Some(repo), sha) => if repo != "" then Some(RepoInfo(repo, date, sha)) else None
    case _ => None
  }

  function SelectAsWritten(cs: seq<Candidate>): Option<RepoInfo> {
    Finish(FoldAsWritten(cs))
  }

  /** The corrected selection: name, date and sha always come from one reply. */
  function SelectLatest(cs: seq<Candidate>): Option<RepoInfo> {
    match Latest(cs, true)
    case None => None
    case Some(p) => if p.repo != "" then Some(RepoInfo(p.repo, p.date, p.sha)) else None
  }

  ghost predicate NamesNonEmpty(cs: seq<Candidate>) {
    forall j :: 0 <= j < |cs| ==> cs[j].repo != ""
  }

  /**
   * No match exactly when no candidate gave a usable 200 reply; otherwise the
   * first candidate with the latest date, with its own date and sha.
   */
  lemma SelectLatestIsFirstLatest(cs: seq<Candidate>)
    requires NamesNonEmpty(cs)
    ensures SelectLatest(cs).None? <==> forall j :: 0 <= j < |cs| ==> !Eligible(cs[j], true)
    ensures SelectLatest(cs).Some? ==>
              exists k :: IsFirstLatest(cs, k, true)
                          && SelectLatest(cs).value == RepoInfo(cs[k].repo, DateOf(cs[k]), cs[k].reply.commit.value.sha)
                          && SelectLatest(cs).value.sha.Some?
  {
    LatestIsFirstMaximum(cs, true);
    if Latest(cs, true).Some? {
      var k :| IsFirstLatest(cs, k, true) && Latest(cs, true).value == PickOf(cs[k]);
      assert SelectLatest(cs).value == RepoInfo(cs[k].repo, DateOf(cs[k]), cs[k].reply.commit.value.sha);
    }
  }

  /**
   * The selection as written, with non-empty names: no match exactly when no
   * candidate gave a 200 reply with commit data and a readable date;
   * otherwise the name and date of the first candidate with the latest date,
   * and that candidate's sha whenever its reply has one.
   */
  lemma SelectAsWrittenIsFirstLatest(cs: seq<Candidate>)
    requires NamesNonEmpty(cs)
    ensures SelectAsWritten(cs).None? <==> forall j :: 0 <= j < |cs| ==> !Accepted(cs[j])
    ensures SelectAsWritten(cs).Some? ==>
              exists k :: && IsFirstLatest(cs, k, false)
                          && SelectAsWritten(cs).value.name == cs[k].repo
                          && SelectAsWritten(cs).value.lastUpdate == DateOf(cs[k])
                          && (cs[k].reply.commit.value.sha.Some? ==> SelectAsWritten(cs).value.sha == cs[k].reply.commit.value.sha)
  {
    FoldAsWrittenTracksLatest(cs);
    LatestIsFirstMaximum(cs, false);
    if Latest(cs, false).Some? {
      var k :| IsFirstLatest(cs, k, false) && Latest(cs, false).value == PickOf(cs[k]);
      assert cs[k].repo != "";
    }
  }

  /** When every accepted reply carries a sha, the code as written and the corrected selection agree. */
  lemma AsWrittenAgreesWhenShaPresent(cs: seq<Candidate>)
    requires forall j :: 0 <= j < |cs| && Accepted(cs[j]) ==> cs[j].reply.commit.value.sha.Some?
    ensures SelectAsWritten(cs) == SelectLatest(cs)
  {
    LatestSameWhenShaPresent(cs);
    FoldAsWrittenTracksLatest(cs);
    LatestIsFirstMaximum(cs, false);
  }

  lemma {:induction false} LatestSameWhenShaPresent(cs: seq<Candidate>)
    requires forall j :: 0 <= j < |cs| && Accepted(cs[j]) ==> cs[j].reply.commit.value.sha.Some?
    ensures Latest(cs, false) == Latest(cs, true)
    decreases |cs|
  {
    if cs != [] {
      LatestSameWhenShaPresent(cs[..|cs| - 1]);
    }
  }

  /**
   * The code as written can return the sha of an earlier candidate: here the
   * later reply has no "sha", and the result pairs its name and date with the
   * first reply's sha.
   */
  lemma AsWrittenMixesReplies()
    ensures var cs := [Candidate("owner/one", BranchResponse(200, Some(Commit(Some(1), Some("aaa"))))),
                       Candidate("owner/two", BranchResponse(200, Some(Commit(Some(2), None))))];
            && SelectAsWritten(cs) == Some(RepoInfo("owner/two", 2, Some("aaa")))
            && SelectLatest(cs) == Some(RepoInfo("owner/one", 1, Some("aaa")))
  {
    var cs := [Candidate("owner/one", BranchResponse(200, Some(Commit(Some(1), Some("aaa"))))),
               Candidate("owner/two", BranchResponse(200, Some(Commit(Some(2), None))))];
    assert cs[..1][..0] == [];
    assert cs[..1] == [cs[0]];
    assert FoldAsWritten(cs[..1]) == Selection(Some(1), Some("owner/one"), Some("aaa"));
    assert Latest(cs[..1], true) == Some(Pick(1, "owner/one", Some("aaa")));
  }

  /** As written, a candidate that is not accepted changes none of the three variables, wherever it stands. */
  lemma {:induction false} AsWrittenSkipsUnaccepted(before: seq<Candidate>, c: Candidate, after: seq<Candidate>)
    requires !Accepted(c)
    ensures FoldAsWritten(before + [c] + after) == FoldAsWritten(before + after)
    ensures SelectAsWritten(before + [c] + after) == SelectAsWritten(before + after)
    decreases |after|
  {
    if after == [] {
      assert (before + [c])[..|before|] == before;
      assert before + [c] + after == before + [c];
      assert before + after == before;
    } else {
      var init := after[..|after| - 1];
      AsWrittenSkipsUnaccepted(before, c, init);
      assert (before + [c] + after)[..|before + [c] + after| - 1] == before + [c] + init;
      assert (before + after)[..|before + after| - 1] == before + init;
    }
  }

  /**
   * As written, the sha can depend on the order of the candidates even when
   * all dates differ: the latest reply has no sha, so the result keeps the sha
   * of whichever reply was chosen just before it.
   */
  lemma AsWrittenShaDependsOnOrder()
    ensures var a := Candidate("owner/a", BranchResponse(200, Some(Commit(Some(1), Some("sa")))));
            var b := Candidate("owner/b", BranchResponse(200, Some(Commit(Some(2), Some("sb")))));
            var c := Candidate("owner/c", BranchResponse(200, Some(Commit(Some(3), None))));
            && SelectAsWritten([a, b, c]) == Some(RepoInfo("owner/c", 3, Some("sb")))
            && SelectAsWritten([a, c, b]) == Some(RepoInfo("owner/c", 3, Some("sa")))
  {
    var a := Candidate("owner/a", BranchResponse(200, Some(Commit(Some(1), Some("sa")))));
    var b := Candidate("owner/b", BranchResponse(200, Some(Commit(Some(2), Some("sb")))));
    var c := Candidate("owner/c", BranchResponse(200, Some(Commit(Some(3), None))));
    assert [a, b, c][..2] == [a, b] && [a, b][..1] == [a] && [a][..0] == [];
    assert [a, c, b][..2] == [a, c] && [a, c][..1] == [a];
    assert FoldAsWritten([a]) == Selection(Some(1), Some("owner/a"), Some("sa"));
    assert FoldAsWritten([a, b]) == Selection(Some(2), Some("owner/b"), Some("sb"));
    assert FoldAsWritten([a, c]) == Selection(Some(3), Some("owner/c"), Some("sa"));
  }

  // ---------------------------------------------------------------------
  // CDN download (fetch_file)
  // ---------------------------------------------------------------------

  const MaxRounds: nat := 3

  datatype HttpReply = HttpResponse(status: int, content: Bytes) | HttpRaised(reason: string)

  /** The reply to the request of a given round to the endpoint of a given rank. */
  type Client = (nat, nat) -> HttpReply

  predicate Delivered(r: HttpReply) {
    r.HttpResponse? && r.status == 200
  }

  /** The endpoint templates of each locality (the constants are not part of this model). */
  datatype CdnConfig = CdnConfig(cn: seq<string>, global: seq<string>)

  function CdnList(cfg: CdnConfig, isCn: bool): seq<string> {
    if isCn then cfg.cn else cfg.global
  }

  datatype FetchError = FileUnavailable(path: string)

  /** The outcome of a download and the number of requests it issued. */
  datatype Fetched = Fetched(result: Result<Bytes, FetchError>, requests: nat)

  /** The request that delivered: its round, its endpoint rank and the bytes it returned. */
  datatype Delivery = Delivery(round: nat, rank: nat, content: Bytes)

  /** Request (r1, i1) is issued before request (r2, i2): round first, then endpoint rank. */
  predicate Before(r1: nat, i1: nat, r2: nat, i2: nat) {
    r1 < r2 || (r1 == r2 && i1 < i2)
  }

  /** The first delivering request at or after (round, rank), if any. */
  function Scan(client: Client, n: nat, round: nat, rank: nat): Option<Delivery>
    requires rank <= n
    decreases MaxRounds - round, n - rank
  {
    if round >= MaxRounds then None
    else if rank == n then Scan(client, n, round + 1, 0)
    else if Delivered(client(round, rank)) then Some(Delivery(round, rank, client(round, rank).content))
    else Scan(client, n, round, rank + 1)
  }

  /** The download over `n` endpoints, as a function of the replies. */
  function Fetch(n: nat, client: Client, path: string): Fetched {
    match Scan(client, n, 0, 0)
    case Some(d) => Fetched(Ok(d.content), d.round * n + d.rank + 1)
    case None => Fetched(Err(FileUnavailable(path)), MaxRounds * n)
  }

  lemma {:induction false} ScanFindsFirst(client: Client, n: nat, round: nat, rank: nat)
    requires rank <= n
    ensures match Scan(client, n, round, rank)
            case Some(a) =>
              && a.round < MaxRounds && a.rank < n && !Before(a.round, a.rank, round, rank)
              && Delivered(client(a.round, a.rank)) && a.content == client(a.round, a.rank).content
              && forall r: nat, i: nat :: i < n && !Before(r, i, round, rank) && Before(r, i, a.round, a.rank)
                                          ==> !Delivered(client(r, i))
            case None =>
              forall r: nat, i: nat :: r < MaxRounds && i < n && !Before(r, i, round, rank) ==> !Delivered(client(r, i))
    decreases MaxRounds - round, n - rank
  {
    if round >= MaxRounds {
    } else if rank == n {
      ScanFindsFirst(client, n, round + 1, 0);
    } else if !Delivered(client(round, rank)) {
      ScanFindsFirst(client, n, round, rank + 1);
    }
  }

  lemma RequestBound(n: nat, round: nat, rank: nat)
    requires round < MaxRounds && rank < n
    ensures round * n + rank + 1 <= MaxRounds * n
  {
    if round == 0 {
    } else if round == 1 {
    } else {
      assert round == 2;
    }
  }

  /**
   * A download returns the content of the first 200 reply in round-major,
   * then rank order, after exactly as many requests as came before it plus one.
   */
  lemma FetchReturnsFirstDelivery(n: nat, client: Client, path: string)
    requires Fetch(n, client, path).result.Ok?
    ensures var f := Fetch(n, client, path);
            exists a: Delivery ::
              && a.round < MaxRounds && a.rank < n
              && Delivered(client(a.round, a.rank))
              && f.result.value == client(a.round, a.rank).content
              && f.requests == a.round * n + a.rank + 1
              && f.requests <= MaxRounds * n
              && forall r: nat, i: nat :: i < n && Before(r, i, a.round, a.rank) ==> !Delivered(client(r, i))
  {
    ScanFindsFirst(client, n, 0, 0);
    var a := Scan(client, n, 0, 0).value;
    RequestBound(n, a.round, a.rank);
  }

  /**
   * A download fails exactly when no request of the three rounds delivers;
   * it then issued 3 × n requests and names the path.
   */
  lemma FetchFailsOnlyWhenExhausted(n: nat, client: Client, path: string)
    ensures var f := Fetch(n, client, path);
            && (f.result.Err? <==> forall r: nat, i: nat :: r < MaxRounds && i < n ==> !Delivered(client(r, i)))
            && (f.result.Err? ==> f.requests == MaxRounds * n && f.result.error == FileUnavailable(path))
  {
    ScanFindsFirst(client, n, 0, 0);
  }

  /** With no endpoint, no request is issued and the download fails. */
  lemma FetchWithoutEndpoints(client: Client, path: string)
    ensures Fetch(0, client, path) == Fetched(Err(FileUnavailable(path)), 0)
  {
    FetchFailsOnlyWhenExhausted(0, client, path);
  }

  /** Two endpoints answer 404, the third delivers: its bytes after three requests. */
  lemma FetchThirdEndpointExample(path: string)
    ensures var client := (r: nat, i: nat) => if i < 2 then HttpResponse(404, []) else HttpResponse(200, [68, 65, 84, 65]);
            Fetch(3, client, path) == Fetched(Ok([68, 65, 84, 65]), 3)
  {
    var client := (r: nat, i: nat) => if i < 2 then HttpResponse(404, []) else HttpResponse(200, [68, 65, 84, 65]);
    assert Scan(client, 3, 0, 2) == Some(Delivery(0, 2, [68, 65, 84, 65]));
    assert Scan(client, 3, 0, 1) == Some(Delivery(0, 2, [68, 65, 84, 65]));
  }

  /** The API wrapper: the locality flag picks the endpoint list. */
  class GitHubApi {
    var isCn: bool
    const cdn: CdnConfig

    constructor (cdn: CdnConfig)
      ensures this.cdn == cdn && isCn
    {
      this.cdn := cdn;
      isCn := true;
    }

    function Endpoints(): (e: seq<string>)
      reads this
      ensures e == (if isCn then cdn.cn else cdn.global)
    {
      CdnList(cdn, isCn)
    }

    /**
     * The selection loop as written (lines 64-88). The candidates pair each
     * repository with the reply its branch query got.
     */
    method GetLatestRepoInfo(candidates: seq<Candidate>) returns (r: Option<RepoInfo>)
      ensures r == SelectAsWritten(candidates)
    {
      var latestDate: Option<int> := None;
      var selectedRepo: Option<string> := None;
      var selectedSha: Option<string> := None;
      var i := 0;
      while i < |candidates|
        invariant i <= |candidates|
        invariant Selection(latestDate, selectedRepo, selectedSha) == FoldAsWritten(candidates[..i])
      {
        var c := candidates[i];
        assert candidates[..i + 1][..i] == candidates[..i];
        match c.reply {
          case BranchRaised(_) =>
          case BranchResponse(status, commit) =>
            if status == 200 && commit.Some? && commit.value.date.Some? {
              var date := commit.value.date.value;
              if latestDate.None? || date > latestDate.value {
                latestDate := Some(date);
                selectedRepo := Some(c.repo);
                if commit.value.sha.Some? {
                  selectedSha := commit.value.sha;
                }
              }
            }
        }
        i := i + 1;
      }
      assert candidates[..|candidates|] == candidates;
      if selectedRepo.Some? && selectedRepo.value != "" && latestDate.Some? {
        r := Some(RepoInfo(selectedRepo.value, latestDate.value, selectedSha));
      } else {
        r := None;
      }
    }

    /**
     * Downloads `path` (lines 90-104): up to three rounds over the endpoint
     * list, returning the first 200 reply's bytes, else failing with the
     * path. `repo` and `sha` only shape the URLs, which `client` abstracts.
     */
    method FetchFile(repo: string, sha: string, path: string, client: Client)
      returns (result: Result<Bytes, FetchError>, requests: nat)
      ensures Fetched(result, requests) == Fetch(|Endpoints()|, client, path)
    {
      var cdnList := if isCn then cdn.cn else cdn.global;
      var n := |cdnList|;
      requests := 0;
      var round := 0;
      while round < MaxRounds
        invariant round <= MaxRounds
        invariant requests == round * n
        invariant Scan(client, n, round, 0) == Scan(client, n, 0, 0)
      {
        var rank := 0;
        while rank < n
          invariant rank <= n
          invariant requests == round * n + rank
          invariant Scan(client, n, round, rank) == Scan(client, n, 0, 0)
        {
          var reply := client(round, rank);
          requests := requests + 1;
          if reply.HttpResponse? && reply.status == 200 {
            result := Ok(reply.content);
            return;
          }
          rank := rank + 1;
        }
        round := round + 1;
      }
      result := Err(FileUnavailable(path));
    }
  }
}
