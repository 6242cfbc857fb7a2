/**
 * The rule-based fallback of the suggestion endpoint: from a task's title, type and deadline it
 * proposes an effort estimate in minutes and a priority.
 */
module Suggest {
  import opened TaskTypes
  import TaskUtils
  import Conflict

  datatype Suggestion = Suggestion(priority: Priority, estimatedMins: int)

  // ---------------------------------------------------------------------------
  // Keyword tests on the title

  /** ASCII lower-casing of one character. */
  function LowerChar(c: char): (r: char)
    ensures 'A' <= c <= 'Z' ==> r as int == c as int + 32
    ensures !('A' <= c <= 'Z') ==> r == c
  {
    if 'A' <= c <= 'Z' then (c as int + 32) as char else c
  }

  function ToLower(s: string): (r: string)
    ensures |r| == |s|
    ensures forall k :: 0 <= k < |s| ==> r[k] == LowerChar(s[k])
  {
    seq(|s|, k requires 0 <= k < |s| => LowerChar(s[k]))
  }

  /** The characters a regular-expression word boundary separates from the others: `[A-Za-z0-9_]`. */
  predicate IsWordChar(c: char) {
    'a' <= c <= 'z' || 'A' <= c <= 'Z' || '0' <= c <= '9' || c == '_'
  }

  /** `w` occurs in `t` at position `i`. */
  predicate OccursAt(t: string, i: int, w: string) {
    0 <= i && i + |w| <= |t| && t[i..i + |w|] == w
  }

  /** `w` occurs at `i` with a word boundary on both sides. */
  predicate WholeWordAt(t: string, i: int, w: string) {
    OccursAt(t, i, w)
    && (i == 0 || !IsWordChar(t[i - 1]))
    && (i + |w| == |t| || !IsWordChar(t[i + |w|]))
  }

  /** `w` occurs in `t` as a whole word at some position from `i` on. */
  predicate WholeWordFrom(t: string, w: string, i: nat)
    decreases |t| - i
  {
    i <= |t| && (WholeWordAt(t, i, w) || WholeWordFrom(t, w, i + 1))
  }

  /** `t` contains one of `words` as a whole word: the test `\b(w1|w2|...)\b`. */
  predicate MentionsAny(t: string, words: seq<string>) {
    words != [] && (WholeWordFrom(t, words[0], 0) || MentionsAny(t, words[1..]))
  }

  /** `w` occurs in `t` at some position from `i` on. */
  predicate OccursFrom(t: string, w: string, i: nat)
    decreases |t| - i
  {
    i <= |t| && (OccursAt(t, i, w) || OccursFrom(t, w, i + 1))
  }

  /** `t` contains one of `words` anywhere: the test `/w1|w2|.../` on a lower-cased text. */
  predicate ContainsAny(t: string, words: seq<string>) {
    words != [] && (OccursFrom(t, words[0], 0) || ContainsAny(t, words[1..]))
  }

  /** The searches succeed when the word is found at some position. */
  lemma {:induction false} WholeWordFromFinds(t: string, w: string, i: nat, j: int)
    requires i <= j && WholeWordAt(t, j, w)
    ensures WholeWordFrom(t, w, i)
    decreases j - i
  {
    if i < j {
      WholeWordFromFinds(t, w, i + 1, j);
    }
  }

  lemma {:induction false} OccursFromFinds(t: string, w: string, i: nat, j: int)
    requires i <= j && OccursAt(t, j, w)
    ensures OccursFrom(t, w, i)
    decreases j - i
  {
    if i < j {
      OccursFromFinds(t, w, i + 1, j);
    }
  }

  /** A whole-word occurrence of any listed word makes the title mention the list. */
  lemma {:induction false} MentionsAnyFinds(t: string, words: seq<string>, k: int, j: int)
    requires 0 <= k < |words| && WholeWordAt(t, j, words[k])
    ensures MentionsAny(t, words)
  {
    if k == 0 {
      WholeWordFromFinds(t, words[0], 0, j);
    } else {
      assert words[1..][k - 1] == words[k];
      MentionsAnyFinds(t, words[1..], k - 1, j);
    }
  }

  lemma {:induction false} ContainsAnyFinds(t: string, words: seq<string>, k: int, j: int)
    requires 0 <= k < |words| && OccursAt(t, j, words[k])
    ensures ContainsAny(t, words)
  {
    if k == 0 {
      OccursFromFinds(t, words[0], 0, j);
    } else {
      assert words[1..][k - 1] == words[k];
      ContainsAnyFinds(t, words[1..], k - 1, j);
    }
  }

  /** The searches succeed only when the word is found at some position. */
  lemma {:induction false} WholeWordFromSound(t: string, w: string, i: nat)
    ensures WholeWordFrom(t, w, i) ==> exists j :: i <= j && WholeWordAt(t, j, w)
    decreases |t| - i
  {
    if i <= |t| && !WholeWordAt(t, i, w) {
      WholeWordFromSound(t, w, i + 1);
    }
  }

  lemma {:induction false} OccursFromSound(t: string, w: string, i: nat)
    ensures OccursFrom(t, w, i) ==> exists j :: i <= j && OccursAt(t, j, w)
    decreases |t| - i
  {
    if i <= |t| && !OccursAt(t, i, w) {
      OccursFromSound(t, w, i + 1);
    }
  }

  /** A title mentions the list only through a whole-word occurrence of one of its words. */
  lemma {:induction false} MentionsAnySound(t: string, words: seq<string>)
    ensures MentionsAny(t, words) ==> exists k, j :: 0 <= k < |words| && WholeWordAt(t, j, words[k])
    decreases |words|
  {
    if words != [] {
      WholeWordFromSound(t, words[0], 0);
      MentionsAnySound(t, words[1..]);
      if !WholeWordFrom(t, words[0], 0) && MentionsAny(t, words[1..]) {
        var k, j :| 0 <= k < |words[1..]| && WholeWordAt(t, j, words[1..][k]);
        assert words[1..][k] == words[k + 1];
      }
    }
  }

  /** A text contains one of the words only where one of them occurs. */
  lemma {:induction false} ContainsAnySound(t: string, words: seq<string>)
    ensures ContainsAny(t, words) ==> exists k, j :: 0 <= k < |words| && OccursAt(t, j, words[k])
    decreases |words|
  {
    if words != [] {
      OccursFromSound(t, words[0], 0);
      ContainsAnySound(t, words[1..]);
      if !OccursFrom(t, words[0], 0) && ContainsAny(t, words[1..]) {
        var k, j :| 0 <= k < |words[1..]| && OccursAt(t, j, words[1..][k]);
        assert words[1..][k] == words[k + 1];
      }
    }
  }

  const WritingWords: seq<string> := ["final", "report", "presentation", "write", "essay", "proposal", "documentation"]
  const CourseworkWords: seq<string> := ["lab", "assignment", "homework", "project", "implement", "refactor"]
  const StudyWords: seq<string> := ["exam", "quiz", "midterm", "review", "study"]
  const MeetingWords: seq<string> := ["meeting", "call", "sync"]
  const FixWords: seq<string> := ["fix", "bug", "debug"]
  /** Every word whose mention adds to the estimate. */
  const BonusWords: seq<string> := WritingWords + CourseworkWords + StudyWords + FixWords
  const UrgentWords: seq<string> := ["exam", "final", "report", "presentation"]

  /** A title naming an exam, a final, a report or a presentation is always urgent. */
  predicate Urgent(title: string) {
    ContainsAny(ToLower(title), UrgentWords)
  }

  /** A title is urgent exactly when its lower-cased text contains one of the urgent words. */
  lemma UrgentExact(title: string)
    ensures Urgent(title) <==>
      exists k, j :: 0 <= k < |UrgentWords| && OccursAt(ToLower(title), j, UrgentWords[k])
  {
    ContainsAnySound(ToLower(title), UrgentWords);
    if k, j :| 0 <= k < |UrgentWords| && OccursAt(ToLower(title), j, UrgentWords[k]) {
      ContainsAnyFinds(ToLower(title), UrgentWords, k, j);
    }
  }

  // ---------------------------------------------------------------------------
  // The reference definitions

  /** The starting estimate for each task type. */
  function BaseMins(taskType: TaskType): (m: int)
    ensures 30 <= m <= 90 && m % 15 == 0
    ensures taskType == Work <==> m == 90
    ensures taskType == School <==> m == 60
    ensures taskType == Group <==> m == 45
    ensures taskType == Club || taskType == Other <==> m == 30
  {
    match taskType
    case School => 60
    case Work => 90
    case Group => 45
    case Club => 30
    case Other => 30
  }

  /** Base estimate plus one bonus per keyword family the lower-cased title mentions. */
  function ExpectedEstimate(title: string, taskType: TaskType): (m: int)
    ensures m % 15 == 0
    ensures BaseMins(taskType) <= m <= BaseMins(taskType) + 120
    ensures 30 <= m <= 210
  {
    var t := ToLower(title);
    BaseMins(taskType)
      + (if MentionsAny(t, WritingWords) then 45 else 0)
      + (if MentionsAny(t, CourseworkWords) then 30 else 0)
      + (if MentionsAny(t, StudyWords) then 30 else 0)
      + (if MentionsAny(t, FixWords) then 15 else 0)
  }

  /** The deadline is known and at most `hours` hours away (or already past). */
  predicate DueWithin(due: Option<int>, now: int, hours: int) {
    due.Some? && due.value - now <= hours * MsPerHour
  }

  /**
   * The priority as a closed form: High for an urgent title or a deadline within a day, else
   * Medium for school and work or a deadline within three days, else Low.
   */
  function PriorityFor(title: string, taskType: TaskType, due: Option<int>, now: int): Priority {
    if Urgent(title) || DueWithin(due, now, 24) then High
    else if taskType == School || taskType == Work || DueWithin(due, now, 72) then Medium
    else Low
  }

  /** `Math.round(est / 15) * 15`, with `Math.round` rounding halves upwards. */
  function RoundToQuarterHour(est: int): (r: int)
    ensures r % 15 == 0
    ensures est - 7 <= r <= est + 7
  {
    ((2 * est + 15) / 30) * 15
  }

  /** A multiple of 15 is not moved by the rounding. */
  lemma RoundKeepsMultiples(est: int)
    requires est % 15 == 0
    ensures RoundToQuarterHour(est) == est
  {
  }

  /** Comparing the real hours left with a whole number of hours is comparing milliseconds. */
  lemma HoursLeftWithin(due: int, now: int, hours: int)
    requires hours >= 0
    ensures TaskUtils.HoursLeft(due, now) <= hours as real <==> due - now <= hours * MsPerHour
  {
  }

  // ---------------------------------------------------------------------------
  // The estimator

  /** The effort estimate: a base per type, keyword bonuses, rounding to 15 minutes, clamping. */
  method EstimateMins(title: string, taskType: TaskType) returns (est: int)
    ensures est == ExpectedEstimate(title, taskType)
    ensures 15 <= est <= 240 && est % 15 == 0
  {
    est := 45;
    if taskType == School { est := 60; }
    if taskType == Work { est := 90; }
    if taskType == Group { est := 45; }
    if taskType == Club { est := 30; }
    if taskType == Other { est := 30; }

    var t := ToLower(title);
    if MentionsAny(t, WritingWords) { est := est + 45; }
    if MentionsAny(t, CourseworkWords) { est := est + 30; }
    if MentionsAny(t, StudyWords) { est := est + 30; }
    if MentionsAny(t, MeetingWords) && est < 30 { est := 30; }
    if MentionsAny(t, FixWords) { est := est + 15; }
    assert est == ExpectedEstimate(title, taskType);

    RoundKeepsMultiples(est);
    est := RoundToQuarterHour(est);
    if est < 15 { est := 15; }
    if est > 240 { est := 240; }
  }

  /**
   * The priority: by hours left, raised to Medium for school and work, and to High for an urgent
   * title. `due` is the parsed deadline in milliseconds, `None` when the deadline string is not
   * a valid date (its hours-left value is then not a number and both comparisons fail).
   */
  method SuggestPriority(title: string, taskType: TaskType, due: Option<int>, now: int) returns (prio: Priority)
    ensures prio == High <==> Urgent(title) || DueWithin(due, now, 24)
    ensures prio == Low <==>
      !Urgent(title) && taskType != School && taskType != Work && !DueWithin(due, now, 72)
    ensures taskType == School || taskType == Work ==> prio != Low
    ensures prio == PriorityFor(title, taskType, due, now)
  {
    if due.Some? {
      HoursLeftWithin(due.value, now, 24);
      HoursLeftWithin(due.value, now, 72);
    }
    prio := Medium;
    if due.Some? && TaskUtils.HoursLeft(due.value, now) <= 24.0 {
      prio := High;
    } else if due.Some? && TaskUtils.HoursLeft(due.value, now) <= 72.0 {
      prio := Medium;
    } else {
      prio := Low;
    }
    if (taskType == School || taskType == Work) && prio == Low { prio := Medium; }
    if Urgent(title) && prio != High { prio := High; }
  }

  /** `now` is the clock reading at the call. */
  method Heuristic(title: string, taskType: TaskType, due: Option<int>, now: int) returns (s: Suggestion)
    ensures s.estimatedMins == ExpectedEstimate(title, taskType)
    ensures 15 <= s.estimatedMins <= 240 && s.estimatedMins % 15 == 0
    ensures s.priority == High <==> Urgent(title) || DueWithin(due, now, 24)
    ensures s.priority == Low <==>
      !Urgent(title) && taskType != School && taskType != Work && !DueWithin(due, now, 72)
    ensures s.priority == PriorityFor(title, taskType, due, now)
  {
    var est := EstimateMins(title, taskType);
    var prio := SuggestPriority(title, taskType, due, now);
    s := Suggestion(prio, est);
  }

  // ---------------------------------------------------------------------------
  // Properties of the reference definitions

  /** A later deadline never yields a higher priority for the same title and type. */
  lemma LaterDueNeverMoreUrgent(title: string, taskType: TaskType, due1: int, due2: int, now: int)
    requires due1 <= due2
    ensures Conflict.PriorityWeight(PriorityFor(title, taskType, Some(due2), now))
         <= Conflict.PriorityWeight(PriorityFor(title, taskType, Some(due1), now))
  {
  }

  /** An unparseable deadline never yields a higher priority than any valid one. */
  lemma UnknownDueNeverMoreUrgent(title: string, taskType: TaskType, due: int, now: int)
    ensures Conflict.PriorityWeight(PriorityFor(title, taskType, None, now))
         <= Conflict.PriorityWeight(PriorityFor(title, taskType, Some(due), now))
  {
  }

  /** A title with no keyword of any bonus family, as a whole word, gets its type's base estimate. */
  lemma EstimateWithoutKeywords(title: string, taskType: TaskType)
    requires forall j, w :: w in BonusWords ==> !WholeWordAt(ToLower(title), j, w)
    ensures ExpectedEstimate(title, taskType) == BaseMins(taskType)
  {
    var t := ToLower(title);
    var all := BonusWords;
    assert forall k :: 0 <= k < |WritingWords| ==> WritingWords[k] in all;
    assert forall k :: 0 <= k < |CourseworkWords| ==> CourseworkWords[k] in all;
    assert forall k :: 0 <= k < |StudyWords| ==> StudyWords[k] in all;
    assert forall k :: 0 <= k < |FixWords| ==> FixWords[k] in all;
    MentionsAnySound(t, WritingWords);
    MentionsAnySound(t, CourseworkWords);
    MentionsAnySound(t, StudyWords);
    MentionsAnySound(t, FixWords);
  }

  /** The lower-case title "debug lab report before exam" names a report, an urgent word. */
  lemma ExampleMentionsReport(t: string)
    requires t == "debug lab report before exam"
    ensures MentionsAny(t, WritingWords)
    ensures ContainsAny(t, UrgentWords)
  {
    assert t[10] == 'r' && t[11] == 'e' && t[12] == 'p' && t[13] == 'o' && t[14] == 'r' && t[15] == 't';
    assert t[10..16] == "report" == WritingWords[1];
    MentionsAnyFinds(t, WritingWords, 1, 10);
    assert "report" == UrgentWords[2];
    ContainsAnyFinds(t, UrgentWords, 2, 10);
  }

  /** The same title names a lab, a coursework word. */
  lemma ExampleMentionsLab(t: string)
    requires t == "debug lab report before exam"
    ensures MentionsAny(t, CourseworkWords)
  {
    assert t[6] == 'l' && t[7] == 'a' && t[8] == 'b';
    assert t[6..9] == "lab" == CourseworkWords[0];
    MentionsAnyFinds(t, CourseworkWords, 0, 6);
  }

  /** The same title names an exam, a study word. */
  lemma ExampleMentionsExam(t: string)
    requires t == "debug lab report before exam"
    ensures MentionsAny(t, StudyWords)
  {
    assert t[24] == 'e' && t[25] == 'x' && t[26] == 'a' && t[27] == 'm';
    assert t[24..28] == "exam" == StudyWords[0];
    MentionsAnyFinds(t, StudyWords, 0, 24);
  }

  /** The same title names a debugging session, a fix word. */
  lemma ExampleMentionsDebug(t: string)
    requires t == "debug lab report before exam"
    ensures MentionsAny(t, FixWords)
  {
    assert t[0] == 'd' && t[1] == 'e' && t[2] == 'b' && t[3] == 'u' && t[4] == 'g';
    assert t[0..5] == "debug" == FixWords[2];
    MentionsAnyFinds(t, FixWords, 2, 0);
  }

  /** Such a title, typed in any letter case, gets every bonus and is urgent. */
  lemma DebugLabReportExample(title: string)
    requires ToLower(title) == "debug lab report before exam"
    ensures ExpectedEstimate(title, School) == 180
    ensures Urgent(title)
  {
    var t := ToLower(title);
    ExampleMentionsReport(t);
    ExampleMentionsLab(t);
    ExampleMentionsExam(t);
    ExampleMentionsDebug(t);
  }
}
