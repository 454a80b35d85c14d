/** The progress dashboard of app/dashboard/page.tsx: the streak banner, the
    colour of a recent quiz's badge, the quiz-number labels, when the
    statistics panel shows, and how a statistics fetch updates the page. */
module Dashboard {
  import opened Common
  import opened Backend
  import opened Quiz
  import opened Database

  /** `getStreakMessage`: one message per range 0, 1, 2-6, 7-29 and 30 on;
      the last three name the streak. */
  function StreakMessage(streak: nat): (m: string)
    ensures 2 <= streak < 7 ==>
      |NatToString(streak)| <= |m| && m[..|NatToString(streak)|] == NatToString(streak)
    ensures 7 <= streak < 30 ==>
      8 + |NatToString(streak)| <= |m| && m[8..8 + |NatToString(streak)|] == NatToString(streak)
    ensures 30 <= streak ==>
      11 + |NatToString(streak)| <= |m| && m[11..11 + |NatToString(streak)|] == NatToString(streak)
  {
    if streak == 0 then "Start your learning streak today! \U{1F3AF}"
    else if streak == 1 then "Great start! Keep it going! \U{1F31F}"
    else if streak < 7 then NatToString(streak) + " days strong! \U{1F525}"
    else if streak < 30 then "Amazing " + NatToString(streak) + "-day streak! \U{1F3C6}"
    else "Incredible " + NatToString(streak) + "-day streak! You're a champion! \U{1F389}"
  }

  /** Different streaks get different banners: the range is told by the
      first character and the count by the number the banner contains. */
  lemma StreakMessageInjective(s: nat, t: nat)
    requires StreakMessage(s) == StreakMessage(t)
    ensures s == t
  {
    var m := StreakMessage(s);
    var ns, nt := NatToString(s), NatToString(t);
    if 2 <= s < 7 && 2 <= t < 7 {
      assert ns == m[..|ns|] && nt == m[..|nt|];
      assert |ns| == |nt|;
      NatToStringInjective(s, t);
    } else if 7 <= s < 30 && 7 <= t < 30 {
      assert ns == m[8..8 + |ns|] && nt == m[8..8 + |nt|];
      assert |ns| == |nt|;
      NatToStringInjective(s, t);
    } else if 30 <= s && 30 <= t {
      assert ns == m[11..11 + |ns|] && nt == m[11..11 + |nt|];
      assert |ns| == |nt|;
      NatToStringInjective(s, t);
    } else {
      StreakMessageRange(s);
      StreakMessageRange(t);
    }
  }

  /** The first character of the banner tells its range. */
  lemma StreakMessageRange(s: nat)
    ensures s == 0 <==> StreakMessage(s)[0] == 'S'
    ensures s == 1 <==> StreakMessage(s)[0] == 'G'
    ensures 2 <= s < 7 <==> '0' <= StreakMessage(s)[0] <= '9'
    ensures 7 <= s < 30 <==> StreakMessage(s)[0] == 'A'
    ensures 30 <= s <==> StreakMessage(s)[0] == 'I'
  {
    if 2 <= s < 7 {
      assert StreakMessage(s)[0] == NatToString(s)[0];
    }
  }

  datatype BadgeColor = Green | Yellow | Red

  /** The colour scheme of a recent quiz's percentage badge. */
  function Badge(percentage: int): (c: BadgeColor)
    ensures c == Green <==> percentage >= 80
    ensures c == Red <==> percentage < 60
  {
    if percentage >= 80 then Green else if percentage >= 60 then Yellow else Red
  }

  /** Green, yellow, red from best to worst. */
  function BadgeRank(c: BadgeColor): nat
  {
    match c
    case Green => 0
    case Yellow => 1
    case Red => 2
  }

  /** A higher percentage never gets a worse badge, and the badge agrees with
      the performance message bands: green for the top two, yellow for the
      next two, red for the last two. */
  lemma BadgeAgreesWithPerformanceBands(p: int, q: int)
    requires p <= q
    ensures BadgeRank(Badge(q)) <= BadgeRank(Badge(p))
    ensures Badge(p) == Green <==> PerformanceBand(p) <= 1
    ensures Badge(p) == Yellow <==> PerformanceBand(p) == 2 || PerformanceBand(p) == 3
    ensures Badge(p) == Red <==> PerformanceBand(p) >= 4
  {
  }

  /** `Quiz #{totalQuizzes - index}` for each recent quiz. */
  function QuizNumbers(stats: UserStats): (labels: seq<int>)
    ensures |labels| == |stats.recentQuizzes|
    ensures forall i :: 0 <= i < |labels| ==> labels[i] == stats.totalQuizzes - i
  {
    seq(|stats.recentQuizzes|, i requires 0 <= i < |stats.recentQuizzes| => stats.totalQuizzes - i)
  }

  /** For statistics as `getUserStats` builds them the labels count down
      from the number of quizzes and stay positive. */
  lemma QuizNumbersCountDown(rs: seq<StoredResult>, stats: UserStats)
    requires stats.totalQuizzes == |rs| && stats.recentQuizzes == RecentQuizzes(rs)
    ensures var labels := QuizNumbers(stats);
      && (|labels| > 0 ==> labels[0] == |rs|)
      && (forall i :: 0 <= i < |labels| ==> 1 <= labels[i] <= |rs|)
      && (forall i, j :: 0 <= i < j < |labels| ==> labels[j] < labels[i])
  {
  }

  /** `stats && stats.totalQuizzes > 0`: the panel needs statistics that
      count at least one quiz. */
  predicate ShowStatsPanel(stats: Option<UserStats>): (b: bool)
    ensures b <==> stats.Some? && stats.value.totalQuizzes >= 1
  {
    stats.Some? && stats.value.totalQuizzes > 0
  }

  class DashboardPage {
    var stats: Option<UserStats>
    var loading: bool
    var error: Option<string>

    constructor()
      ensures stats == None && loading && error == None
    {
      stats := None;
      loading := true;
      error := None;
    }

    /** `fetchUserStats` for the signed-in user (nothing without one): a
        (truthy) error is recorded and the statistics are kept; otherwise the
        statistics are replaced. Loading ends either way. */
    method FetchUserStats(user: Option<string>, quizQuery: Call<seq<StoredResult>>, answersQuery: Call<seq<string>>, now: int)
      returns (response: Option<StatsResponse>)
      modifies this
      ensures user.None? ==> response == None && stats == old(stats) && loading == old(loading) && error == old(error)
      ensures user.Some? ==> response.Some? && !loading
      ensures user.Some? && Truthy(response.value.error) ==>
        error == response.value.error && stats == old(stats)
      ensures user.Some? && !Truthy(response.value.error) ==>
        error == None && stats == response.value.stats
      ensures user.Some? && quizQuery.Returned? && !answersQuery.Threw? ==>
        error == None && (ShowStatsPanel(stats) <==> |quizQuery.data| > 0)
      ensures user.Some? && (quizQuery.Threw? || (answersQuery.Threw? && quizQuery.Returned? && |quizQuery.data| > 0)) ==>
        error == Some(UnexpectedStatsError) && stats == old(stats)
    {
      response := None;
      if user.None? {
        return;
      }
      loading := true;
      error := None;
      var r := GetUserStats(quizQuery, answersQuery, now);
      response := Some(r);
      if Truthy(r.error) {
        error := r.error;
      } else {
        stats := r.stats;
      }
      loading := false;
    }

    /** The effect run when the signed-in user changes: fetch the statistics
        for a user; without one, only stop loading. */
    method UserChanged(user: Option<string>, quizQuery: Call<seq<StoredResult>>, answersQuery: Call<seq<string>>, now: int)
      modifies this
      ensures !loading
      ensures user.None? ==> stats == old(stats) && error == old(error)
      ensures user.Some? && quizQuery.Returned? && !answersQuery.Threw? ==>
        error == None && (ShowStatsPanel(stats) <==> |quizQuery.data| > 0)
    {
      if user.Some? {
        var _ := FetchUserStats(user, quizQuery, answersQuery, now);
      } else {
        loading := false;
      }
    }
  }
}
