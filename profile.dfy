/**
 * `src/pages/profile.tsx`: the signed-in user's profile. It loads the
 * user's questions, folds them into the figures the page shows, and lists
 * the first five. The question service it asks is not part of this model:
 * its answer is a parameter.
 */
module ProfilePage {
  import opened Wrappers
  import opened Seqs
  import opened QuestionRepository
  import opened UserService
  import opened QuestionDetailPage

  /** The figures on the page. */
  datatype Stats = Stats(questions: nat, views: int, upvotes: int, answeredQuestions: nat, acceptedAnswers: nat)

  const NoStats := Stats(0, 0, 0, 0, 0)
  const RecentCount := 5
  const AcceptedCap := 10

  function ViewCount(q: QuestionResponse): int { q.viewCount }
  function VoteCountOf(q: QuestionResponse): int { q.voteCount }
  function IsAnswered(q: QuestionResponse): bool { q.isAnswered }

  /** The answered questions of the list, counted. */
  function Answered(qs: seq<QuestionResponse>): (n: nat)
    ensures n == |Matching(qs, IsAnswered)|
    ensures n <= |qs|
  {
    CountIsCardinality(qs, IsAnswered);
    Count(qs, IsAnswered)
  }

  /**
   * `Math.min(Math.floor(n * 0.7), 10)`: an estimate of accepted answers
   * made from the number of questions alone. In double precision
   * `n * 0.7` floors to the same integer as `7n / 10` for every n up to
   * 14, and from 15 on both are at least 10.
   */
  function AcceptedEstimate(n: nat): (a: nat)
    ensures a <= AcceptedCap && a <= n
    ensures a < AcceptedCap ==> 10 * a <= 7 * n < 10 * (a + 1)
    ensures a == AcceptedCap <==> n >= 15
  {
    if 7 * n / 10 < AcceptedCap then 7 * n / 10 else AcceptedCap
  }

  /** The figures of a list of questions, as `loadUserData` sets them. */
  function StatsOf(qs: seq<QuestionResponse>): Stats {
    Stats(|qs|, Sum(qs, ViewCount), Sum(qs, VoteCountOf), Answered(qs), AcceptedEstimate(|qs|))
  }

  /** No more questions are answered than there are, and the estimate stays under its cap. */
  lemma StatsBounds(qs: seq<QuestionResponse>)
    ensures StatsOf(qs).answeredQuestions <= StatsOf(qs).questions
    ensures StatsOf(qs).acceptedAnswers <= AcceptedCap
    ensures StatsOf(qs).acceptedAnswers <= StatsOf(qs).questions
  {
  }

  /** The questions listed on the page: the first five, converted in order. */
  function Recent(qs: seq<QuestionResponse>): (r: seq<PageQuestion>)
    ensures |r| == if |qs| < RecentCount then |qs| else RecentCount
    ensures forall i | 0 <= i < |r| :: r[i] == MapQuestion(qs[i])
  {
    Map(if |qs| < RecentCount then qs else qs[..RecentCount], MapQuestion)
  }

  class ProfileView {
    var stats: Stats
    var recentQuestions: seq<PageQuestion>
    var loading: bool

    constructor ()
      ensures stats == NoStats && recentQuestions == [] && loading
    {
      stats, recentQuestions, loading := NoStats, [], true;
    }

    /**
     * The page's effect: without a user it goes to the sign-in page and
     * loads nothing; otherwise `loadUserData` folds the questions found
     * into the figures and keeps the first five. A failed load only stops
     * the loading state.
     */
    method Load(user: Option<SessionUser>, found: Result<seq<QuestionResponse>, string>) returns (next: Option<string>)
      modifies this
      ensures user.None? ==> next == Some("/login") && stats == old(stats) && recentQuestions == old(recentQuestions) && loading == old(loading)
      ensures user.Some? ==> next.None? && !loading
      ensures user.Some? && found.Err? ==> stats == old(stats) && recentQuestions == old(recentQuestions)
      ensures user.Some? && found.Ok? ==> stats == StatsOf(found.value) && recentQuestions == Recent(found.value)
    {
      if user.None? {
        return Some("/login");
      }
      next := None;
      loading := true;
      if found.Err? {
        loading := false;
        return;
      }
      var qs := found.value;
      var totalViews, totalVotes, answeredQuestions := 0, 0, 0;
      var i := 0;
      while i < |qs|
        invariant 0 <= i <= |qs|
        invariant totalViews == Sum(qs[..i], ViewCount)
        invariant totalVotes == Sum(qs[..i], VoteCountOf)
        invariant answeredQuestions == Count(qs[..i], IsAnswered)
      {
        assert qs[..i + 1][..i] == qs[..i];
        totalViews := totalViews + qs[i].viewCount;
        totalVotes := totalVotes + qs[i].voteCount;
        if qs[i].isAnswered {
          answeredQuestions := answeredQuestions + 1;
        }
        i := i + 1;
      }
      assert qs[..|qs|] == qs;
      stats := Stats(|qs|, totalViews, totalVotes, answeredQuestions, AcceptedEstimate(|qs|));
      recentQuestions := Map(if |qs| < RecentCount then qs else qs[..RecentCount], MapQuestion);
      loading := false;
    }
  }
}
