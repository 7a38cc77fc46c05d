/** A tutorial chapter: which of its text and task sections are visible so far,
    how far the learner has progressed, and how an action is dispatched to the
    chapter's handler and recorded. */
module Chapter {
  import opened Constants

  /** A text section (possibly one that is skipped for budgeting), a task
      section with its done flag, or a section of any other type. */
  datatype Section = Text(skip: bool) | Task(done: bool) | Other

  type ActionType = string

  /** The action type `READ_ON`, dispatched when the learner asks for more text. */
  const ReadOn: ActionType := "READ_ON"

  /** The message `visibleSections` throws on a section of another type. */
  const UnknownSectionType: string := "Unknown section type."

  /** An action: its type and an opaque payload. */
  datatype Action = Action(kind: ActionType, payload: int)

  /** The READ_ON actions among `actions`, in order. */
  function ReadOnActions(actions: seq<Action>): (r: seq<Action>)
    ensures |r| <= |actions|
    ensures forall a :: a in r <==> a in actions && a.kind == ReadOn
    ensures forall a :: multiset(r)[a] == if a.kind == ReadOn then multiset(actions)[a] else 0
  {
    if actions == [] then []
    else
      assert actions == [actions[0]] + actions[1..];
      (if actions[0].kind == ReadOn then [actions[0]] else []) + ReadOnActions(actions[1..])
  }

  /** `numberOfVisibleTextSections`: one more than the number of READ_ON
      actions recorded. */
  function NumberOfVisibleTextSections(actions: seq<Action>): (n: nat)
    ensures 1 <= n <= |actions| + 1
    ensures n == 1 <==> forall a :: a in actions ==> a.kind != ReadOn
  {
    var r := ReadOnActions(actions);
    assert r != [] ==> r[0] in r;
    |r| + 1
  }

  /** Recording one more action raises the budget by one exactly when it is
      a READ_ON action. */
  lemma {:induction false} NumberOfVisibleTextSectionsAppend(actions: seq<Action>, a: Action)
    ensures NumberOfVisibleTextSections(actions + [a])
         == NumberOfVisibleTextSections(actions) + (if a.kind == ReadOn then 1 else 0)
    decreases |actions|
  {
    if actions == [] {
      assert [] + [a] == [a];
    } else {
      assert (actions + [a])[1..] == actions[1..] + [a];
      NumberOfVisibleTextSectionsAppend(actions[1..], a);
    }
  }

  /** Prefix `prefix` to a successful result; an error passes through. */
  function PrependOk(prefix: seq<Section>, r: Result<seq<Section>>): Result<seq<Section>>
  {
    match r
    case Ok(v) => Ok(prefix + v)
    case Err(m) => Err(m)
  }

  lemma PrependOkTwice(a: seq<Section>, b: seq<Section>, r: Result<seq<Section>>)
    ensures PrependOk(a, PrependOk(b, r)) == PrependOk(a + b, r)
  {
    if r.Ok? {
      assert a + (b + r.value) == (a + b) + r.value;
    }
  }

  /** The `takeWhile` of `visibleSections`, as a specification: `budget` text
      sections that are not skipped may still be shown, and `prevTaskDone`
      says whether the last task shown so far is done. */
  function Visible(sections: seq<Section>, budget: int, prevTaskDone: bool): (r: Result<seq<Section>>)
    ensures r.Ok? ==> r.value <= sections
    ensures r.Err? ==> r == Err(UnknownSectionType)
    decreases |sections|
  {
    if sections == [] then Ok([])
    else
      match sections[0]
      case Text(skip) =>
        if !prevTaskDone || budget < 1 then Ok([])
        else PrependOk([sections[0]], Visible(sections[1..], if skip then budget else budget - 1, prevTaskDone))
      case Task(done) =>
        if !prevTaskDone then Ok([])
        else PrependOk([sections[0]], Visible(sections[1..], budget, done))
      case Other => Err(UnknownSectionType)
  }

  /** One step of Visible, taken at position `i`. */
  lemma VisibleUnfold(sections: seq<Section>, i: nat, budget: int, prevTaskDone: bool)
    requires i < |sections|
    ensures Visible(sections[i..], budget, prevTaskDone) ==
      match sections[i]
      case Text(skip) =>
        if !prevTaskDone || budget < 1 then Ok([])
        else PrependOk([sections[i]], Visible(sections[i + 1..], if skip then budget else budget - 1, prevTaskDone))
      case Task(done) =>
        if !prevTaskDone then Ok([])
        else PrependOk([sections[i]], Visible(sections[i + 1..], budget, done))
      case Other => Err(UnknownSectionType)
  {
    assert sections[i..][0] == sections[i] && sections[i..][1..] == sections[i + 1..];
  }

  /** `visibleSections`: the loop of the source, proved to compute Visible
      with the budget of the recorded actions. */
  method VisibleSections(sections: seq<Section>, actions: seq<Action>) returns (r: Result<seq<Section>>)
    ensures r == Visible(sections, NumberOfVisibleTextSections(actions), true)
  {
    var budget: int := NumberOfVisibleTextSections(actions);
    var prevTaskDone := true;
    var i := 0;
    assert sections[..0] == [] && sections[0..] == sections;
    assert forall v: seq<Section> :: [] + v == v;
    while i < |sections|
      invariant 0 <= i <= |sections|
      invariant Visible(sections, NumberOfVisibleTextSections(actions), true)
             == PrependOk(sections[..i], Visible(sections[i..], budget, prevTaskDone))
    {
      VisibleUnfold(sections, i, budget, prevTaskDone);
      assert sections[..i + 1] == sections[..i] + [sections[i]];
      match sections[i] {
        case Text(skip) =>
          if !prevTaskDone || budget < 1 {
            assert sections[..i] + [] == sections[..i];
            return Ok(sections[..i]);
          }
          var next := if skip then budget else budget - 1;
          PrependOkTwice(sections[..i], [sections[i]], Visible(sections[i + 1..], next, prevTaskDone));
          budget := next;
        case Task(done) =>
          if !prevTaskDone {
            assert sections[..i] + [] == sections[..i];
            return Ok(sections[..i]);
          }
          PrependOkTwice(sections[..i], [sections[i]], Visible(sections[i + 1..], budget, done));
          prevTaskDone := done;
        case Other =>
          return Err(UnknownSectionType);
      }
      i := i + 1;
    }
    assert sections[i..] == [] && sections[..i] == sections;
    assert sections[..i] + [] == sections;
    r := Ok(sections);
  }

  /** The number of text sections in `v` that are not skipped. */
  function CountedTexts(v: seq<Section>): (n: nat)
    ensures n <= |v|
  {
    if v == [] then 0 else (if v[0].Text? && !v[0].skip then 1 else 0) + CountedTexts(v[1..])
  }

  /** Whether the last task in `v` is done (true when there is none). */
  function LastTaskDone(v: seq<Section>, prevTaskDone: bool): bool
    decreases |v|
  {
    if v == [] then prevTaskDone
    else LastTaskDone(v[1..], if v[0].Task? then v[0].done else prevTaskDone)
  }

  /** The visible sections are a prefix of the sections, and they contain no
      more counted text sections than the budget allows. */
  lemma {:induction false} VisibleIsBudgetedPrefix(sections: seq<Section>, budget: int, prevTaskDone: bool)
    requires Visible(sections, budget, prevTaskDone).Ok?
    ensures var v := Visible(sections, budget, prevTaskDone).value;
      v <= sections && CountedTexts(v) <= (if budget < 0 then 0 else budget)
    decreases |sections|
  {
    if sections != [] {
      match sections[0]
      case Text(skip) =>
        if prevTaskDone && budget >= 1 {
          VisibleIsBudgetedPrefix(sections[1..], if skip then budget else budget - 1, prevTaskDone);
        }
      case Task(done) =>
        if prevTaskDone {
          VisibleIsBudgetedPrefix(sections[1..], budget, done);
        }
      case Other =>
    }
  }

  /** Why the visible prefix ends where it does: either every section is
      shown, or the last task shown is not done, or the next section is a
      text section and the budget is used up. */
  lemma {:induction false} VisibleStopsForAReason(sections: seq<Section>, budget: int, prevTaskDone: bool)
    requires Visible(sections, budget, prevTaskDone).Ok?
    ensures var v := Visible(sections, budget, prevTaskDone).value;
      |v| == |sections|
      || (|v| < |sections| && !LastTaskDone(v, prevTaskDone))
      || (|v| < |sections| && sections[|v|].Text? && CountedTexts(v) >= budget)
    decreases |sections|
  {
    if sections != [] {
      var s := sections[0];
      match s
      case Text(skip) =>
        if prevTaskDone && budget >= 1 {
          var b := if skip then budget else budget - 1;
          VisibleStopsForAReason(sections[1..], b, prevTaskDone);
          var w := Visible(sections[1..], b, prevTaskDone).value;
          assert Visible(sections, budget, prevTaskDone).value == [s] + w;
          assert ([s] + w)[1..] == w;
        }
      case Task(done) =>
        if prevTaskDone {
          VisibleStopsForAReason(sections[1..], budget, done);
          var w := Visible(sections[1..], budget, done).value;
          assert Visible(sections, budget, prevTaskDone).value == [s] + w;
          assert ([s] + w)[1..] == w;
        }
      case Other =>
    }
  }

  /** A task that is not done is the last visible section: nothing after an
      undone task is shown. */
  lemma {:induction false} UndoneTaskIsLastVisible(sections: seq<Section>, budget: int, prevTaskDone: bool, k: nat)
    requires Visible(sections, budget, prevTaskDone).Ok?
    requires k < |Visible(sections, budget, prevTaskDone).value|
    requires Visible(sections, budget, prevTaskDone).value[k] == Task(false)
    ensures k == |Visible(sections, budget, prevTaskDone).value| - 1
    decreases |sections|
  {
    var s := sections[0];
    match s
    case Text(skip) =>
      var b := if skip then budget else budget - 1;
      UndoneTaskIsLastVisible(sections[1..], b, prevTaskDone, k - 1);
    case Task(done) =>
      if k > 0 {
        var w := Visible(sections[1..], budget, done).value;
        assert w != [] && w[0] == sections[1];
        UndoneTaskIsLastVisible(sections[1..], budget, done, k - 1);
      }
  }

  /** `visibleSections` throws exactly when a section of another type is
      reached; with only text and task sections it never throws. */
  lemma {:induction false} VisibleFailsOnlyOnOther(sections: seq<Section>, budget: int, prevTaskDone: bool)
    ensures Visible(sections, budget, prevTaskDone).Err? ==> Other in sections
    ensures Visible(sections, budget, prevTaskDone).Err? ==> Visible(sections, budget, prevTaskDone).message == UnknownSectionType
    ensures Other !in sections ==> Visible(sections, budget, prevTaskDone).Ok?
    decreases |sections|
  {
    if sections != [] {
      match sections[0]
      case Text(skip) =>
        VisibleFailsOnlyOnOther(sections[1..], if skip then budget else budget - 1, prevTaskDone);
      case Task(done) =>
        VisibleFailsOnlyOnOther(sections[1..], budget, done);
      case Other =>
    }
  }

  /** Whether a section counts towards progress: a text section that is not
      skipped, or a task. */
  predicate Doable(s: Section)
  {
    (s.Text? && !s.skip) || s.Task?
  }

  /** Whether a visible section counts as done: a text section that is not
      skipped, or a task that is done. */
  predicate Done(s: Section)
  {
    (s.Text? && !s.skip) || (s.Task? && s.done)
  }

  /** `doableSections`: the sections that are doable, in order. */
  function DoableSections(sections: seq<Section>): (r: seq<Section>)
    ensures |r| <= |sections|
    ensures forall s :: s in r <==> s in sections && Doable(s)
    ensures forall s :: multiset(r)[s] == if Doable(s) then multiset(sections)[s] else 0
  {
    if sections == [] then []
    else
      assert sections == [sections[0]] + sections[1..];
      (if Doable(sections[0]) then [sections[0]] else []) + DoableSections(sections[1..])
  }

  /** `doneSections`: the visible sections that are done, in order. */
  function DoneSections(visible: seq<Section>): (r: seq<Section>)
    ensures |r| <= |visible|
    ensures forall s :: s in r <==> s in visible && Done(s)
    ensures forall s :: multiset(r)[s] == if Done(s) then multiset(visible)[s] else 0
  {
    if visible == [] then []
    else
      assert visible == [visible[0]] + visible[1..];
      (if Done(visible[0]) then [visible[0]] else []) + DoneSections(visible[1..])
  }

  /** Done sections of a prefix never outnumber the doable sections of the
      whole, so progress never exceeds 1. */
  lemma {:induction false} DoneAtMostDoable(visible: seq<Section>, sections: seq<Section>)
    requires visible <= sections
    ensures |DoneSections(visible)| <= |DoableSections(sections)|
    decreases |sections|
  {
    if visible != [] {
      assert visible[1..] <= sections[1..];
      DoneAtMostDoable(visible[1..], sections[1..]);
    } else if sections != [] {
      DoneAtMostDoable(visible, sections[1..]);
    }
  }

  /** A JavaScript number as a division can produce it. */
  datatype Number = Finite(value: real) | NaN | Infinity

  /** `done / doable` in JavaScript: 0 / 0 is NaN, n / 0 is Infinity. */
  function Quotient(done: nat, doable: nat): (q: Number)
    ensures doable > 0 ==> q.Finite? && q.value * (doable as real) == done as real
    ensures doable == 0 ==> (q == NaN <==> done == 0)
    ensures doable == 0 && done > 0 ==> q == Infinity
  {
    if doable > 0 then Finite(done as real / doable as real)
    else if done == 0 then NaN
    else Infinity
  }

  /** `completed`: progress is at least 1 (never true of NaN). */
  predicate Completed(progress: Number): (b: bool)
    ensures progress == NaN ==> !b
    ensures progress == Infinity ==> b
    ensures progress.Finite? ==> (b <==> progress.value >= 1.0)
  {
    match progress
    case Finite(x) => x >= 1.0
    case NaN => false
    case Infinity => true
  }

  /** The progress dispatch stores, when the visible sections can be computed. */
  function Progress(sections: seq<Section>, actions: seq<Action>): (p: Result<Number>)
    ensures Visible(sections, NumberOfVisibleTextSections(actions), true).Ok? <==> p.Ok?
  {
    match Visible(sections, NumberOfVisibleTextSections(actions), true)
    case Ok(v) => Ok(Quotient(|DoneSections(v)|, |DoableSections(sections)|))
    case Err(m) => Err(m)
  }

  /** A quotient of counts is at least one exactly when the numerator is
      at least the denominator. */
  lemma QuotientAtLeastOne(done: nat, doable: nat)
    requires doable > 0
    ensures Completed(Quotient(done, doable)) <==> done >= doable
  {
    var q := done as real / doable as real;
    assert q * (doable as real) == done as real;
    if q >= 1.0 {
      assert q * (doable as real) >= 1.0 * (doable as real);
    } else {
      assert q * (doable as real) < 1.0 * (doable as real);
    }
  }

  /** The chapter is completed exactly when every doable section is done and
      there is at least one. */
  lemma CompletedIffAllDone(sections: seq<Section>, actions: seq<Action>)
    requires Progress(sections, actions).Ok?
    ensures var v := Visible(sections, NumberOfVisibleTextSections(actions), true).value;
      Completed(Progress(sections, actions).value)
      <==> |DoableSections(sections)| > 0 && |DoneSections(v)| == |DoableSections(sections)|
  {
    var v := Visible(sections, NumberOfVisibleTextSections(actions), true).value;
    VisibleIsBudgetedPrefix(sections, NumberOfVisibleTextSections(actions), true);
    DoneAtMostDoable(v, sections);
    if |DoableSections(sections)| > 0 {
      QuotientAtLeastOne(|DoneSections(v)|, |DoableSections(sections)|);
    }
  }

  /** What a chapter's handler does when called: returns a value (or
      `undefined`), throws a ConsoleError, or throws any other error. */
  datatype Outcome = Returned(data: Option<int>) | ConsoleError(message: string) | Thrown(message: string)

  /** `call`: run the handler for the action's type, if the chapter has one;
      without a handler the result is `undefined`. */
  function Call(handlers: set<ActionType>, action: Action, handlerOutcome: Outcome): (o: Outcome)
    ensures action.kind !in handlers ==> o == Returned(None)
    ensures action.kind in handlers ==> o == handlerOutcome
  {
    if action.kind in handlers then handlerOutcome else Returned(None)
  }

  class Chapter {
    var sections: seq<Section>
    var actions: seq<Action>
    var progress: Number
    /** The action types this chapter has a handler for. */
    const handlers: set<ActionType>

    constructor (sections: seq<Section>, actions: seq<Action>, progress: Number, handlers: set<ActionType>)
      ensures this.sections == sections && this.actions == actions
      ensures this.progress == progress && this.handlers == handlers
    {
      this.sections := sections;
      this.actions := actions;
      this.progress := progress;
      this.handlers := handlers;
    }

    /** `dispatch`: call the handler; a ConsoleError is swallowed and leaves
        the chapter as it was; any other error propagates, also leaving it
        as it was. A handler that returns has changed the chapter's state,
        so the sections it derives are now `sectionsAfter`. On success the
        action is recorded and progress becomes done / doable over those new
        sections, the visible ones counted with the new action included.
        Computing the visible sections can itself throw, after the action
        has been recorded. */
    method Dispatch(action: Action, handlerOutcome: Outcome, sectionsAfter: seq<Section>) returns (r: Outcome)
      modifies this
      ensures !Call(handlers, action, handlerOutcome).Returned? ==> sections == old(sections)
      ensures Call(handlers, action, handlerOutcome).ConsoleError? ==>
        r == Returned(None) && actions == old(actions) && progress == old(progress)
      ensures Call(handlers, action, handlerOutcome).Thrown? ==>
        r == Call(handlers, action, handlerOutcome) && actions == old(actions) && progress == old(progress)
      ensures Call(handlers, action, handlerOutcome).Returned? ==>
        sections == sectionsAfter
        && actions == old(actions) + [action]
        && match Progress(sectionsAfter, actions)
           case Ok(p) => progress == p && r == Call(handlers, action, handlerOutcome)
           case Err(m) => progress == old(progress) && r == Thrown(m)
    {
      var o := Call(handlers, action, handlerOutcome);
      match o
      case ConsoleError(_) =>
        return Returned(None);
      case Thrown(_) =>
        return o;
      case Returned(_) =>
        sections := sectionsAfter;
        actions := actions + [action];
        var visible := VisibleSections(sections, actions);
        match visible
        case Ok(v) =>
          progress := Quotient(|DoneSections(v)|, |DoableSections(sections)|);
          r := o;
        case Err(m) =>
          r := Thrown(m);
    }

    /** `reset`: forget every recorded action. */
    method Reset()
      modifies this
      ensures actions == []
      ensures sections == old(sections) && progress == old(progress)
    {
      actions := [];
    }
  }
}
