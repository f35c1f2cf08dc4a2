/**
  `openProfileModal` (auth.js:211-304): the profile window opened from the
  avatar. A student's window shows the rounded mean of the percentages of
  their completed tests, coloured by band; a teacher's shows identity only.
 */
module Profile {
  import opened Base
  import opened Session
  import Nav

  /** One assigned test; `percentage` is None when it is null or undefined (not completed). */
  datatype Assignment = Assignment(percentage: Option<nat>)

  /**
    What the request for a student's assigned tests yields: the reply's
    `tests` field (None when it is missing or null), or a failure of the
    request or of parsing the reply.
   */
  datatype TestsReply = Fetched(tests: Option<seq<Assignment>>) | FetchFailed

  /** The colour band of the progress circle. */
  datatype Band = Red | Orange | Green

  /** The statistics part of the window: none, the "no completed tests" note, or the mean in its colour. */
  datatype Stats = NoStats | NoCompletedTests | AverageShown(percent: nat, color: string)

  /** Everything the window shows once the data is in. */
  datatype ProfileView = ProfileView(avatarColor: string, initial: string, login: string, roleLabel: string, stats: Stats)

  const TeacherAvatarColor := "#DB5C5C"
  const OtherAvatarColor := "#64D258"
  const RedColor := "#dc3545"
  const OrangeColor := "#ff9500"
  const GreenColor := "#28a745"

  /** The percentages of the completed tests, in order: those whose percentage is neither null nor undefined. */
  function Completed(tests: seq<Assignment>): (r: seq<nat>)
    ensures |r| <= |tests|
    ensures |r| == |tests| <==> forall i :: 0 <= i < |tests| ==> tests[i].percentage.Some?
    ensures forall p :: p in r <==> Assignment(Some(p)) in tests
    ensures r == [] <==> forall i :: 0 <= i < |tests| ==> tests[i].percentage.None?
  {
    if tests == [] then []
    else
      var rest := Completed(tests[1..]);
      assert forall i :: 1 <= i < |tests| ==> tests[i] == tests[1..][i - 1];
      assert forall t :: t in tests <==> t == tests[0] || t in tests[1..];
      match tests[0].percentage
      case Some(p) => [p] + rest
      case None => rest
  }

  /** The sum of the percentages, as `reduce` adds them. */
  function Sum(ps: seq<nat>): (s: nat)
    ensures forall i :: 0 <= i < |ps| ==> ps[i] <= s
  {
    if ps == [] then 0
    else
      assert forall i :: 1 <= i < |ps| ==> ps[i] == ps[1..][i - 1];
      ps[0] + Sum(ps[1..])
  }

  /**
    `Math.round(total / n)` for a non-negative mean: the integer nearest to
    it, halves rounded up.
   */
  function RoundedMean(total: nat, n: nat): (r: nat)
    requires n > 0
    ensures n * (2 * r - 1) <= 2 * total < n * (2 * r + 1)
  {
    var r := (2 * total + n) / (2 * n);
    assert 2 * n * r <= 2 * total + n < 2 * n * r + 2 * n;
    r
  }

  /** The mean of the completed tests' percentages, rounded, or None when no test is completed. */
  function Average(tests: seq<Assignment>): (avg: Option<nat>)
    ensures avg.None? <==> Completed(tests) == []
    ensures avg.Some? ==>
      var ps := Completed(tests);
      |ps| * (2 * avg.value - 1) <= 2 * Sum(ps) < |ps| * (2 * avg.value + 1)
  {
    var done := Completed(tests);
    if |done| == 0 then None else Some(RoundedMean(Sum(done), |done|))
  }

  /** The band of a mean: red without one or up to 30, orange above 30 up to 60, green above 60. */
  function BandOf(avg: Option<nat>): (b: Band)
    ensures b == Red <==> avg.None? || avg.value <= 30
    ensures b == Orange <==> avg.Some? && 30 < avg.value <= 60
    ensures b == Green <==> avg.Some? && avg.value > 60
  {
    if avg.Some? && avg.value > 60 then Green
    else if avg.Some? && avg.value > 30 then Orange
    else Red
  }

  /** The colour of a band. */
  function BandColor(b: Band): (c: string)
    ensures c == RedColor <==> b == Red
    ensures c == OrangeColor <==> b == Orange
    ensures c == GreenColor <==> b == Green
  {
    match b
    case Red => RedColor
    case Orange => OrangeColor
    case Green => GreenColor
  }

  /** The mean a user's window shows: only a student's, and only from tests that were fetched. */
  function StudentAverage(user: User, reply: TestsReply): (avg: Option<nat>)
    ensures user.role != Nav.StudentRole || reply.FetchFailed? ==> avg.None?
    ensures user.role == Nav.StudentRole && reply.Fetched? && reply.tests.Some? ==> avg == Average(reply.tests.value)
    ensures avg.Some? ==> user.role == Nav.StudentRole && reply.Fetched? && reply.tests.Some?
  {
    if user.role == Nav.StudentRole && reply.Fetched? && reply.tests.Some? then Average(reply.tests.value)
    else None
  }

  /** The role as the window names it: the teacher's name, and the student's for every other role. */
  function ProfileRoleLabel(role: string): (name: string)
    ensures role == Nav.TeacherRole <==> name == "Преподаватель"
    ensures role != Nav.TeacherRole <==> name == "Ученик"
  {
    if role == Nav.TeacherRole then "Преподаватель" else "Ученик"
  }

  /** What the window shows for `user`, given what the tests request would yield. */
  function View(user: User, reply: TestsReply): (v: ProfileView)
    ensures v.avatarColor == (if user.role == Nav.TeacherRole then TeacherAvatarColor else OtherAvatarColor)
    ensures v.initial == Nav.Initial(user.login) && v.login == user.login
    ensures v.roleLabel == ProfileRoleLabel(user.role)
    ensures v.stats == NoStats <==> user.role != Nav.StudentRole
    ensures v.stats == NoCompletedTests <==> user.role == Nav.StudentRole && StudentAverage(user, reply).None?
    ensures v.stats.AverageShown? ==>
      && StudentAverage(user, reply) == Some(v.stats.percent)
      && v.stats.color == BandColor(BandOf(Some(v.stats.percent)))
  {
    var avg := StudentAverage(user, reply);
    var stats :=
      if user.role == Nav.StudentRole && avg.Some? then AverageShown(avg.value, BandColor(BandOf(avg)))
      else if user.role == Nav.StudentRole then NoCompletedTests
      else NoStats;
    ProfileView(
      if user.role == Nav.TeacherRole then TeacherAvatarColor else OtherAvatarColor,
      Nav.Initial(user.login), user.login, ProfileRoleLabel(user.role), stats)
  }

  /** `Sum` is at least the count times a lower bound of the percentages. */
  lemma {:induction false} SumAtLeast(ps: seq<nat>, lo: nat)
    requires forall i :: 0 <= i < |ps| ==> lo <= ps[i]
    ensures |ps| * lo <= Sum(ps)
  {
    if ps != [] {
      var tail := ps[1..];
      assert forall i :: 0 <= i < |tail| ==> lo <= tail[i] by {
        forall i | 0 <= i < |tail| ensures lo <= tail[i] { assert tail[i] == ps[i + 1]; }
      }
      SumAtLeast(tail, lo);
      assert Sum(ps) == ps[0] + Sum(tail);
      assert |ps| * lo == |tail| * lo + lo;
    }
  }

  /** `Sum` is at most the count times an upper bound of the percentages. */
  lemma {:induction false} SumAtMost(ps: seq<nat>, hi: nat)
    requires forall i :: 0 <= i < |ps| ==> ps[i] <= hi
    ensures Sum(ps) <= |ps| * hi
  {
    if ps != [] {
      var tail := ps[1..];
      assert forall i :: 0 <= i < |tail| ==> tail[i] <= hi by {
        forall i | 0 <= i < |tail| ensures tail[i] <= hi { assert tail[i] == ps[i + 1]; }
      }
      SumAtMost(tail, hi);
      assert Sum(ps) == ps[0] + Sum(tail);
      assert |ps| * hi == |tail| * hi + hi;
    }
  }

  /** The rounded mean lies between the least and the greatest percentage averaged. */
  lemma MeanBounds(ps: seq<nat>, lo: nat, hi: nat)
    requires |ps| > 0
    requires forall i :: 0 <= i < |ps| ==> lo <= ps[i] <= hi
    ensures lo <= RoundedMean(Sum(ps), |ps|) <= hi
  {
    SumAtLeast(ps, lo);
    SumAtMost(ps, hi);
    RoundingBounds(Sum(ps), |ps|, lo, hi);
  }

  /** Rounding a mean that lies in [lo, hi], bounds that are integers, stays in [lo, hi]. */
  lemma RoundingBounds(total: nat, n: nat, lo: nat, hi: nat)
    requires n > 0 && n * lo <= total <= n * hi
    ensures lo <= RoundedMean(total, n) <= hi
  {
    var r := RoundedMean(total, n);
    RoundedNotAbove(total, n, hi, r);
    RoundedNotBelow(total, n, lo, r);
  }

  /** An integer r with n(2r - 1) <= 2 total is at most any integer bound of the mean. */
  lemma RoundedNotAbove(total: nat, n: nat, hi: nat, r: int)
    requires n > 0 && total <= n * hi && n * (2 * r - 1) <= 2 * total
    ensures r <= hi
  {
    assert n * (2 * hi) == 2 * (n * hi);
    MulCancel(n, 2 * r - 1, 2 * hi);
  }

  /** An integer r with 2 total < n(2r + 1) is at least any integer bound of the mean from below. */
  lemma RoundedNotBelow(total: nat, n: nat, lo: nat, r: int)
    requires n > 0 && n * lo <= total && 2 * total < n * (2 * r + 1)
    ensures lo <= r
  {
    assert n * (2 * lo) == 2 * (n * lo);
    MulCancelStrict(n, 2 * lo, 2 * r + 1);
  }

  lemma MulMonotone(n: nat, a: int, b: int)
    requires a <= b
    ensures n * a <= n * b
  {
  }

  lemma MulCancel(n: nat, a: int, b: int)
    requires n > 0
    ensures n * a <= n * b ==> a <= b
  {
    if a > b {
      MulMonotone(n, b + 1, a);
    }
  }

  lemma MulCancelStrict(n: nat, a: int, b: int)
    requires n > 0
    ensures n * a < n * b ==> a < b
  {
    if a >= b {
      MulMonotone(n, b, a);
    }
  }

  /** A student whose percentages are all at most 100 never sees a mean above 100. */
  lemma AverageAtMostHundred(tests: seq<Assignment>)
    requires forall i :: 0 <= i < |tests| && tests[i].percentage.Some? ==> tests[i].percentage.value <= 100
    ensures Average(tests).Some? ==> Average(tests).value <= 100
  {
    var done := Completed(tests);
    if |done| > 0 {
      forall i | 0 <= i < |done| ensures 0 <= done[i] <= 100 {
        assert done[i] in done;
      }
      MeanBounds(done, 0, 100);
    }
  }

  /** [80, null, 40]: the mean of 80 and 40 is 60, which is orange, not green. */
  lemma MeanOfTwoIsOrange()
    ensures Average([Assignment(Some(80)), Assignment(None), Assignment(Some(40))]) == Some(60)
    ensures BandOf(Some(60)) == Orange
  {
    var tests := [Assignment(Some(80)), Assignment(None), Assignment(Some(40))];
    assert Completed(tests) == [80, 40] by {
      assert tests[1..] == [Assignment(None), Assignment(Some(40))];
      assert tests[1..][1..] == [Assignment(Some(40))];
    }
    assert Sum([80, 40]) == 120 by {
      assert [80, 40][1..] == [40];
    }
  }

  /** [65] is green. */
  lemma SingleMeanIsGreen()
    ensures Average([Assignment(Some(65))]) == Some(65)
    ensures BandOf(Some(65)) == Green
  {
    assert Completed([Assignment(Some(65))]) == [65];
  }

  /** [80, 80, 20]: a repeated percentage is counted each time, so the mean is 60, not 50. */
  lemma RepeatedScoresCount()
    ensures Average([Assignment(Some(80)), Assignment(Some(80)), Assignment(Some(20))]) == Some(60)
  {
    var tests := [Assignment(Some(80)), Assignment(Some(80)), Assignment(Some(20))];
    assert Completed(tests) == [80, 80, 20] by {
      assert tests[1..] == [Assignment(Some(80)), Assignment(Some(20))];
      assert tests[1..][1..] == [Assignment(Some(20))];
    }
    assert Sum([80, 80, 20]) == 180 by {
      assert [80, 80, 20][1..] == [80, 20];
      assert [80, 20][1..] == [20];
    }
  }

  /** One test keeps its percentage exactly when it is completed. */
  lemma CompletedOne(t: Assignment)
    ensures Completed([t]) == (if t.percentage.Some? then [t.percentage.value] else [])
  {
    assert [t][1..] == [];
  }

  /** Filtering keeps the order and the multiplicity of the tests: it distributes over concatenation. */
  lemma {:induction false} CompletedAppend(a: seq<Assignment>, b: seq<Assignment>)
    ensures Completed(a + b) == Completed(a) + Completed(b)
  {
    if a == [] {
      assert a + b == b;
    } else {
      assert (a + b)[0] == a[0];
      assert (a + b)[1..] == a[1..] + b;
      CompletedAppend(a[1..], b);
    }
  }

  /** The sum of two runs of percentages is the sum of their sums. */
  lemma {:induction false} SumAppend(a: seq<nat>, b: seq<nat>)
    ensures Sum(a + b) == Sum(a) + Sum(b)
  {
    if a == [] {
      assert a + b == b;
    } else {
      assert (a + b)[0] == a[0];
      assert (a + b)[1..] == a[1..] + b;
      SumAppend(a[1..], b);
    }
  }

  /** A student with no completed test gets the "no completed tests" note. */
  lemma NoCompletedTestsNote(user: User, tests: seq<Assignment>)
    requires user.role == Nav.StudentRole
    requires forall i :: 0 <= i < |tests| ==> tests[i].percentage.None?
    ensures View(user, Fetched(Some(tests))).stats == NoCompletedTests
    ensures View(user, Fetched(None)).stats == NoCompletedTests
    ensures View(user, FetchFailed).stats == NoCompletedTests
  {
  }

  /** The window's content: empty when just created, a loading note, or the finished view. */
  datatype ModalContent = Empty | Loading | Showing(view: ProfileView)

  /** The `#profileModal` element. */
  class ProfileModal {
    var content: ModalContent

    constructor ()
      ensures content == Empty
    {
      content := Empty;
    }
  }

  /** The page's document, reduced to the profile window it may hold. */
  class Document {
    var profileModal: ProfileModal?

    constructor ()
      ensures profileModal == null
    {
      profileModal := null;
    }
  }

  /**
    `openProfileModal`: creates the window on first use and reuses it after,
    shows the loading note, then the view computed from the user and the
    tests reply.
   */
  method OpenProfileModal(doc: Document, user: User, reply: TestsReply)
    modifies doc, doc.profileModal
    ensures doc.profileModal != null
    ensures old(doc.profileModal) != null ==> doc.profileModal == old(doc.profileModal)
    ensures old(doc.profileModal) == null ==> fresh(doc.profileModal)
    ensures doc.profileModal.content == Showing(View(user, reply))
  {
    var modal := doc.profileModal;
    if modal == null {
      modal := new ProfileModal();
      doc.profileModal := modal;
    }
    modal.content := Loading;

    var initial := Nav.Initial(user.login);
    var bgColor := if user.role == Nav.TeacherRole then TeacherAvatarColor else OtherAvatarColor;

    var avgPercentage: Option<nat> := None;
    if user.role == Nav.StudentRole {
      match reply
      case FetchFailed =>
      case Fetched(tests) =>
        var all := if tests.Some? then tests.value else [];
        var completed := Completed(all);
        if |completed| > 0 {
          avgPercentage := Some(RoundedMean(Sum(completed), |completed|));
        }
    }

    var circleColor := RedColor;
    if avgPercentage.Some? && avgPercentage.value > 60 {
      circleColor := GreenColor;
    } else if avgPercentage.Some? && avgPercentage.value > 30 {
      circleColor := OrangeColor;
    }

    var stats :=
      if user.role == Nav.StudentRole && avgPercentage.Some? then AverageShown(avgPercentage.value, circleColor)
      else if user.role == Nav.StudentRole then NoCompletedTests
      else NoStats;
    modal.content := Showing(ProfileView(bgColor, initial, user.login, ProfileRoleLabel(user.role), stats));
  }
}
