/** Recovery of a multi-database transaction whose two-phase commit was cut short (src/alice/tdr.cpp).

    The first half models what the utility computes: the advice drawn from the visible states of the
    parts, and what is done with it. The second half is the protocol around it: a coordinator that
    prepares its parts in list order and then commits or rolls them back in list order, a crash at any
    moment, and any number of recovery calls, running side by side, that each read the states one
    database at a time and then try to settle the parts they saw in limbo. */
module TwoPhaseRecovery {

  // ---------------------------------------------------------------- the advice

  /** The `tdr_state` of one part. */
  datatype TraState = TraNone | TraLimbo | TraCommit | TraRollback | TraUnknown

  /** A missing record in the first part is taken for a commit. */
  function Basis(first: TraState): TraState {
    if first == TraNone then TraCommit else first
  }

  /** The warning "inconsistent state for recovery". */
  predicate Contradicts(basis: TraState, next: TraState) {
    (next == TraCommit && basis == TraRollback) || (next == TraRollback && basis == TraCommit)
  }

  /** What a later part says on its own; `TraNone` when it says nothing. */
  function Verdict(basis: TraState, next: TraState): TraState {
    match next
    case TraCommit => TraCommit
    case TraRollback => TraRollback
    case TraLimbo => if basis == TraCommit || basis == TraRollback then basis else TraNone
    case TraNone => if basis == TraCommit then TraCommit else if basis == TraLimbo then TraRollback else TraNone
    case TraUnknown => TraNone
  }

  function Update(basis: TraState, advice: TraState, next: TraState): TraState {
    if Verdict(basis, next) != TraNone then Verdict(basis, next)
    else if next == TraUnknown && advice == TraNone then TraUnknown
    else advice
  }

  function AdviseFrom(basis: TraState, advice: TraState, rest: seq<TraState>): TraState
    decreases |rest|
  {
    if rest == [] then advice
    else if Contradicts(basis, rest[0]) then TraNone
    else AdviseFrom(basis, Update(basis, advice, rest[0]), rest[1..])
  }

  /** The advice for the states of all parts, in list order. */
  function Advise(view: seq<TraState>): TraState {
    if view == [] then TraNone
    else AdviseFrom(Basis(view[0]), if view[0] == TraUnknown then TraUnknown else TraNone, view[1..])
  }

  /** Some later part contradicts the first one. */
  ghost predicate Contradicted(view: seq<TraState>) {
    view != [] && exists i :: 1 <= i < |view| && Contradicts(Basis(view[0]), view[i])
  }

  /** `i` is the last later part that says anything. */
  ghost predicate LastSpeaker(view: seq<TraState>, i: nat) {
    && 1 <= i < |view|
    && Verdict(Basis(view[0]), view[i]) != TraNone
    && forall j :: i < j < |view| ==> Verdict(Basis(view[0]), view[j]) == TraNone
  }

  lemma {:induction false} AdviseFromMeaning(view: seq<TraState>, k: nat, advice: TraState)
    requires 1 <= k <= |view|
    ensures var b := Basis(view[0]);
            var got := AdviseFrom(b, advice, view[k..]);
            && ((exists i :: k <= i < |view| && Contradicts(b, view[i])) ==> got == TraNone)
            && ((forall i :: k <= i < |view| ==> !Contradicts(b, view[i])) ==>
                  && (forall i | k <= i :: LastSpeaker(view, i) ==> got == Verdict(b, view[i]))
                  && ((forall i :: k <= i < |view| ==> Verdict(b, view[i]) == TraNone) ==>
                        got == if advice == TraNone && TraUnknown in view[k..] then TraUnknown else advice))
    decreases |view| - k
  {
    if k < |view| {
      var b := Basis(view[0]);
      assert view[k..][0] == view[k] && view[k..][1..] == view[k + 1..];
      if !Contradicts(b, view[k]) {
        AdviseFromMeaning(view, k + 1, Update(b, advice, view[k]));
        assert view[k..] == [view[k]] + view[k + 1..];
      }
    }
  }

  /** The advice, said without the walk: nothing on a contradiction; otherwise the verdict of the last
      later part that says anything; otherwise unknown exactly when some database is unreachable. */
  lemma AdviceMeaning(view: seq<TraState>)
    requires view != []
    ensures Contradicted(view) ==> Advise(view) == TraNone
    ensures !Contradicted(view) ==>
            forall i: nat | LastSpeaker(view, i) :: Advise(view) == Verdict(Basis(view[0]), view[i])
    ensures !Contradicted(view) && (forall i :: 1 <= i < |view| ==> Verdict(Basis(view[0]), view[i]) == TraNone) ==>
              Advise(view) == if TraUnknown in view then TraUnknown else TraNone
  {
    hide Advise, AdviseFrom, Basis, Contradicts, Verdict;
    AdviseStarts(view);
    AdviseFromMeaning(view, 1, if view[0] == TraUnknown then TraUnknown else TraNone);
  }

  lemma AdviseStarts(view: seq<TraState>)
    requires view != []
    ensures Advise(view) == AdviseFrom(Basis(view[0]), if view[0] == TraUnknown then TraUnknown else TraNone, view[1..])
    ensures TraUnknown in view <==> view[0] == TraUnknown || TraUnknown in view[1..]
  {
    hide AdviseFrom;
    assert view == [view[0]] + view[1..];
  }

  /** A last speaker exists as soon as anyone speaks. */
  lemma {:induction false} FindLastSpeaker(view: seq<TraState>, k: nat) returns (i: nat)
    requires 1 <= k < |view| && Verdict(Basis(view[0]), view[k]) != TraNone
    ensures k <= i && LastSpeaker(view, i)
    decreases |view| - k
  {
    if j :| k < j < |view| && Verdict(Basis(view[0]), view[j]) != TraNone {
      i := FindLastSpeaker(view, j);
    } else {
      i := k;
    }
  }

  /** If anyone speaks, the advice is what the last speaker says. */
  lemma AdviceOfLastSpeaker(view: seq<TraState>, k: nat) returns (i: nat)
    requires 1 <= k < |view| && Verdict(Basis(view[0]), view[k]) != TraNone
    requires !Contradicted(view)
    ensures k <= i && LastSpeaker(view, i) && Advise(view) == Verdict(Basis(view[0]), view[i])
  {
    i := FindLastSpeaker(view, k);
    AdviceMeaning(view);
  }

  /** An advice to commit or to roll back has a speaker behind it. */
  lemma AdviceHasSpeaker(view: seq<TraState>) returns (i: nat)
    requires Advise(view) != TraNone && Advise(view) != TraUnknown
    ensures LastSpeaker(view, i) && !Contradicted(view) && Advise(view) == Verdict(Basis(view[0]), view[i])
  {
    AdviceMeaning(view);
    var k :| 1 <= k < |view| && Verdict(Basis(view[0]), view[k]) != TraNone;
    i := AdviceOfLastSpeaker(view, k);
  }

  /** The last of the later parts that is in one of the states `xs`. */
  ghost predicate LastAmong(view: seq<TraState>, xs: set<TraState>, i: nat) {
    1 <= i < |view| && view[i] in xs && forall j :: i < j < |view| ==> view[j] !in xs
  }

  /** What remains to be advised when nothing speaks for commit or rollback. */
  ghost predicate Undecided(view: seq<TraState>) {
    Advise(view) == if TraUnknown in view then TraUnknown else TraNone
  }

  /** The advice by the visible states alone. Behind a first part that has committed, or is missing, every later part
      but an unreachable one speaks for commit, and a rollback contradicts it; */
  lemma AdviceAfterCommit(view: seq<TraState>)
    requires view != [] && view[0] in {TraCommit, TraNone}
    ensures if LaterPart(view, TraRollback) then Advise(view) == TraNone
            else if LaterPart(view, TraCommit) || LaterPart(view, TraLimbo) || LaterPart(view, TraNone) then
              Advise(view) == TraCommit
            else Undecided(view)
  {
    hide Advise, AdviseFrom;
    AdviceMeaning(view);
    if k :| 1 <= k < |view| && view[k] in {TraCommit, TraLimbo, TraNone} && !Contradicted(view) {
      var i := AdviceOfLastSpeaker(view, k);
    }
  }

  /** behind one that has rolled back, a rollback or a part in limbo speaks for rollback, and a commit contradicts
      it; */
  lemma AdviceAfterRollback(view: seq<TraState>)
    requires view != [] && view[0] == TraRollback
    ensures if LaterPart(view, TraCommit) then Advise(view) == TraNone
            else if LaterPart(view, TraRollback) || LaterPart(view, TraLimbo) then Advise(view) == TraRollback
            else Undecided(view)
  {
    hide Advise, AdviseFrom;
    AdviceMeaning(view);
    if k :| 1 <= k < |view| && view[k] in {TraRollback, TraLimbo} && !Contradicted(view) {
      var i := AdviceOfLastSpeaker(view, k);
    }
  }

  /** behind one in limbo the last part counts that has committed, has rolled back or is missing, which is taken for a
      rollback; behind an unreachable one, the last that has committed or rolled back. */
  lemma AdviceAfterUndecided(view: seq<TraState>)
    requires view != [] && view[0] in {TraLimbo, TraUnknown}
    ensures var xs := if view[0] == TraLimbo then {TraCommit, TraRollback, TraNone} else {TraCommit, TraRollback};
            && (forall i: nat :: LastAmong(view, xs, i) ==>
                  Advise(view) == if view[i] == TraCommit then TraCommit else TraRollback)
            && ((forall i :: 1 <= i < |view| ==> view[i] !in xs) ==> Undecided(view))
  {
    hide Advise, AdviseFrom, Verdict, Basis, Contradicted;
    AdviceMeaning(view);
    var xs := if view[0] == TraLimbo then {TraCommit, TraRollback, TraNone} else {TraCommit, TraRollback};
    UndecidedVerdicts(view);
    forall i: nat | LastAmong(view, xs, i)
      ensures Advise(view) == if view[i] == TraCommit then TraCommit else TraRollback
    {
      assert LastSpeaker(view, i);
    }
  }

  lemma UndecidedVerdicts(view: seq<TraState>)
    requires view != [] && view[0] in {TraLimbo, TraUnknown}
    ensures !Contradicted(view)
    ensures var xs := if view[0] == TraLimbo then {TraCommit, TraRollback, TraNone} else {TraCommit, TraRollback};
            forall j :: 1 <= j < |view| ==>
              Verdict(Basis(view[0]), view[j]) ==
              if view[j] !in xs then TraNone else if view[j] == TraCommit then TraCommit else TraRollback
  {
    hide Verdict, Basis, Contradicts;
    forall j | 1 <= j < |view|
      ensures !Contradicts(Basis(view[0]), view[j])
      ensures Verdict(Basis(view[0]), view[j]) ==
              if view[j] == TraCommit then TraCommit
              else if view[j] == TraRollback || (view[j] == TraNone && view[0] == TraLimbo) then TraRollback
              else TraNone
    {
      UndecidedVerdict(view[0], view[j]);
    }
  }

  lemma UndecidedVerdict(first: TraState, next: TraState)
    requires first in {TraLimbo, TraUnknown}
    ensures !Contradicts(Basis(first), next)
    ensures Verdict(Basis(first), next) ==
            if next == TraCommit then TraCommit
            else if next == TraRollback || (next == TraNone && first == TraLimbo) then TraRollback
            else TraNone
  {
  }

  /** The limbo state is never an advice, so the branch that offers either action is dead. */
  lemma AdviceIsNeverLimbo(view: seq<TraState>)
    ensures Advise(view) != TraLimbo
  {
    if Advise(view) == TraLimbo {
      var i := AdviceHasSpeaker(view);
    }
  }

  /** The advice goes against something that is plainly visible. */
  ghost predicate UnsafeAdvice(view: seq<TraState>) {
    || (Advise(view) == TraCommit && exists i :: 0 <= i < |view| && view[i] == TraRollback)
    || (Advise(view) == TraRollback && exists i :: 0 <= i < |view| && view[i] == TraCommit)
  }

  ghost predicate LaterPart(view: seq<TraState>, x: TraState) {
    exists i :: 1 <= i < |view| && view[i] == x
  }

  /** A missing record that no visible commit follows. */
  ghost predicate MissingAfterCommits(view: seq<TraState>, m: nat) {
    1 <= m < |view| && view[m] == TraNone && forall j :: m < j < |view| ==> view[j] != TraCommit
  }

  /** On an arbitrary list the walk can be fooled, because it never revises its opinion of the first
      part. This is exactly when: the first part is undecided, and either both outcomes appear among
      the others or, behind a prepared first part, a missing record comes after the last commit. */
  ghost predicate Fooled(view: seq<TraState>) {
    && view != []
    && (view[0] == TraLimbo || view[0] == TraUnknown)
    && LaterPart(view, TraCommit)
    && (LaterPart(view, TraRollback) || (view[0] == TraLimbo && exists m :: MissingAfterCommits(view, m)))
  }

  lemma UnsafeExactlyWhenFooled(view: seq<TraState>)
    ensures UnsafeAdvice(view) <==> Fooled(view)
  {
    if Fooled(view) {
      var c :| 1 <= c < |view| && view[c] == TraCommit;
      if m :| view[0] == TraLimbo && MissingAfterCommits(view, m) {
        var i := AdviceOfLastSpeaker(view, m);
      } else {
        var i := AdviceOfLastSpeaker(view, c);
      }
    }
    if UnsafeAdvice(view) {
      var i := AdviceHasSpeaker(view);
      if view[i] == TraNone && view[0] == TraLimbo {
        assert MissingAfterCommits(view, i);
      }
    }
  }

  /** One list of each kind that fools the walk. */
  lemma ArbitraryListsCanFoolIt()
    ensures Advise([TraLimbo, TraCommit, TraRollback]) == TraRollback
    ensures Advise([TraUnknown, TraRollback, TraCommit]) == TraCommit
    ensures Advise([TraLimbo, TraCommit, TraNone]) == TraRollback
  {
    var v := [TraLimbo, TraCommit, TraRollback];
    AdviceMeaning(v);
    assert LastSpeaker(v, 2);
    v := [TraUnknown, TraRollback, TraCommit];
    AdviceMeaning(v);
    assert LastSpeaker(v, 2);
    v := [TraLimbo, TraCommit, TraNone];
    AdviceMeaning(v);
    assert LastSpeaker(v, 2);
  }

  // ---------------------------------------------------------------- acting on the advice

  datatype Switch = SwCommit | SwRollback | SwTwoPhase | SwPrompt

  /** The switches after the advice has been weighed; `ask` as compiled always reports end of input. */
  datatype Decision = Switches(sw: set<Switch>) | EndOfInput

  function Ask(): Decision { EndOfInput }

  function Decide(advice: TraState, sw: set<Switch>): Decision {
    match advice
    case TraNone => Ask()
    case TraRollback =>
      if SwCommit in sw then Ask()
      else if SwRollback in sw then Switches(sw + {SwRollback})
      else if SwTwoPhase in sw then Switches(sw + {SwRollback})
      else if SwPrompt in sw then Ask()
      else Switches(sw)
    case TraCommit =>
      if SwRollback in sw then Ask()
      else if SwCommit in sw then Switches(sw + {SwCommit})
      else if SwTwoPhase in sw then Switches(sw + {SwCommit})
      else if SwPrompt in sw then Ask()
      else Switches(sw)
    case TraUnknown => Ask()
    case TraLimbo => if SwCommit !in sw && SwRollback !in sw then Ask() else Switches(sw)
  }

  /** What a database really holds for its part of the transaction. */
  datatype Part = Active | Prepared | Committed | RolledBack

  datatype Outcome = Nothing | Settle(part: Part)

  /** What `reconnect` does to a part in limbo under the decided switches. */
  function OutcomeOf(d: Decision): Outcome {
    if d.EndOfInput? then Nothing
    else if SwCommit in d.sw then Settle(Committed)
    else if SwRollback in d.sw then Settle(RolledBack)
    else Nothing
  }

  function Act(view: seq<TraState>, sw: set<Switch>): Outcome {
    OutcomeOf(Decide(Advise(view), sw))
  }

  /** Reconnecting works on a prepared part only. */
  function Settled(part: Part, outcome: Outcome): Part {
    if part == Prepared && outcome.Settle? then outcome.part else part
  }

  /** The parts after the ones seen in limbo have been settled. */
  function AllSettled(parts: seq<Part>, shown: seq<TraState>, outcome: Outcome, accepted: seq<bool>): seq<Part>
    requires |shown| == |accepted| == |parts|
  {
    seq(|parts|, i requires 0 <= i < |parts| =>
      if shown[i] == TraLimbo && accepted[i] then Settled(parts[i], outcome) else parts[i])
  }

  /** One whole recovery call: which parts it leaves behind, given what it saw (`shown`) and which
      reconnects went through (`accepted`). */
  function Recover(parts: seq<Part>, shown: seq<TraState>, sw: set<Switch>, accepted: seq<bool>): (after: seq<Part>)
    requires |shown| == |accepted| == |parts|
    ensures |after| == |parts|
  {
    AllSettled(parts, shown, Act(shown, sw), accepted)
  }

  /** Whatever the operator asks for, a part is settled only the way the advice points. */
  lemma ActFollowsAdvice(view: seq<TraState>, sw: set<Switch>)
    ensures Act(view, sw) == Settle(Committed) ==> Advise(view) == TraCommit
    ensures Act(view, sw) == Settle(RolledBack) ==> Advise(view) == TraRollback
    ensures Act(view, sw).Settle? ==> Act(view, sw).part in {Committed, RolledBack}
  {
    AdviceIsNeverLimbo(view);
  }

  /** Exactly when a call commits: on the advice to commit, if the switches ask for it, or for two-phase recovery, and
      not for a rollback. */
  lemma CommitsExactlyWhen(view: seq<TraState>, sw: set<Switch>)
    ensures Act(view, sw) == Settle(Committed) <==>
            Advise(view) == TraCommit && SwRollback !in sw && (SwCommit in sw || SwTwoPhase in sw)
  {
    AdviceIsNeverLimbo(view);
  }

  /** Exactly when it rolls back: the mirror image. */
  lemma RollsBackExactlyWhen(view: seq<TraState>, sw: set<Switch>)
    ensures Act(view, sw) == Settle(RolledBack) <==>
            Advise(view) == TraRollback && SwCommit !in sw && (SwRollback in sw || SwTwoPhase in sw)
  {
    AdviceIsNeverLimbo(view);
  }

  /** Exactly when the operator would be asked, which ends the call with an error: without advice, against the advice,
      or when prompting is wanted and no other switch settles it. */
  lemma AsksExactlyWhen(view: seq<TraState>, sw: set<Switch>)
    ensures Decide(Advise(view), sw).EndOfInput? <==>
            || (Advise(view) != TraCommit && Advise(view) != TraRollback)
            || (Advise(view) == TraCommit && SwRollback in sw)
            || (Advise(view) == TraRollback && SwCommit in sw)
            || (SwPrompt in sw && SwCommit !in sw && SwRollback !in sw && SwTwoPhase !in sw)
  {
    AdviceIsNeverLimbo(view);
  }

  /** What a call makes of each part. */
  lemma CallSettles(parts: seq<Part>, shown: seq<TraState>, sw: set<Switch>, accepted: seq<bool>, i: nat)
    requires |shown| == |accepted| == |parts| && i < |parts|
    ensures var after := Recover(parts, shown, sw, accepted)[i];
            if shown[i] != TraLimbo || !accepted[i] || parts[i] != Prepared then after == parts[i]
            else if Advise(shown) == TraCommit && SwRollback !in sw && (SwCommit in sw || SwTwoPhase in sw) then
              after == Committed
            else if Advise(shown) == TraRollback && SwCommit !in sw && (SwRollback in sw || SwTwoPhase in sw) then
              after == RolledBack
            else after == Prepared
  {
    hide Advise, Act;
    CommitsExactlyWhen(shown, sw);
    RollsBackExactlyWhen(shown, sw);
    ActFollowsAdvice(shown, sw);
  }

  /** A transaction description record, together with the database it stands for. */
  class Tdr {
    var state: TraState
    var part: Part

    constructor (part: Part)
      ensures this.part == part && state == TraNone
    {
      this.part, state := part, TraNone;
    }
  }

  ghost predicate Distinct(trans: seq<Tdr>) {
    forall i, j :: 0 <= i < j < |trans| ==> trans[i] != trans[j]
  }

  ghost function States(trans: seq<Tdr>): (s: seq<TraState>)
    reads trans
  {
    seq(|trans|, i requires 0 <= i < |trans| reads trans => trans[i].state)
  }

  ghost function Parts(trans: seq<Tdr>): (s: seq<Part>)
    reads trans
  {
    seq(|trans|, i requires 0 <= i < |trans| reads trans => trans[i].part)
  }

  /** The walk over the list, one running `advice` at a time. */
  method Analyze(trans: seq<Tdr>) returns (advice: TraState)
    ensures advice == Advise(States(trans))
  {
    advice := TraNone;
    if |trans| == 0 {
      return;
    }
    var basis := trans[0].state;
    if basis == TraNone {
      basis := TraCommit;
    } else if basis == TraUnknown {
      advice := TraUnknown;
    }
    ghost var view := States(trans);
    for i := 1 to |trans|
      invariant basis == Basis(view[0])
      invariant AdviseFrom(basis, advice, view[i..]) == Advise(view)
    {
      assert view[i..][0] == trans[i].state && view[i..][1..] == view[i + 1..];
      match trans[i].state {
        case TraCommit =>
          if basis == TraRollback {
            return TraNone;
          }
          advice := TraCommit;
        case TraLimbo =>
          if basis == TraNone || basis == TraCommit {
            advice := TraCommit;
          } else if basis == TraRollback {
            advice := TraRollback;
          }
        case TraRollback =>
          if basis == TraCommit || basis == TraNone {
            return TraNone;
          }
          advice := TraRollback;
        case TraNone =>
          if basis == TraCommit {
            advice := TraCommit;
          } else if basis == TraLimbo {
            advice := TraRollback;
          }
        case TraUnknown =>
          if advice == TraNone {
            advice := TraUnknown;
          }
      }
    }
  }

  /** The parts of a described transaction. `shown` is what the databases report; `accepted` says which of them would
      let the utility reconnect. */
  method ReconnectParts(trans: seq<Tdr>, switches: set<Switch>, shown: seq<TraState>, accepted: seq<bool>)
    returns (error: bool)
    requires Distinct(trans) && |shown| == |accepted| == |trans|
    modifies trans
    ensures States(trans) == shown
    ensures Parts(trans) == Recover(old(Parts(trans)), shown, switches, accepted)
    ensures error <==> Decide(Advise(shown), switches).EndOfInput?
  {
    hide Advise, Decide, Recover;
    ReadStates(trans, shown);
    var advice := Analyze(trans);
    var decision := Weigh(advice, switches, shown);
    error := decision.EndOfInput?;
    if decision.Switches? && (SwCommit in decision.sw || SwRollback in decision.sw) {
      SettleParts(trans, decision.sw, shown, accepted);
    }
    OutcomeMeans(old(Parts(trans)), shown, switches, accepted);
  }

  /** Ask every database for the state of its part. */
  method ReadStates(trans: seq<Tdr>, shown: seq<TraState>)
    requires Distinct(trans) && |shown| == |trans|
    modifies trans
    ensures States(trans) == shown && Parts(trans) == old(Parts(trans))
  {
    ghost var before := Parts(trans);
    for i := 0 to |trans|
      invariant forall j :: 0 <= j < i ==> trans[j].state == shown[j]
      invariant forall j :: 0 <= j < |trans| ==> trans[j].part == before[j]
    {
      trans[i].state := shown[i];
    }
  }

  /** The advice against the switches; the operator is asked where they disagree. */
  method Weigh(advice: TraState, switches: set<Switch>, ghost shown: seq<TraState>) returns (decision: Decision)
    requires advice == Advise(shown)
    ensures decision == Decide(advice, switches)
  {
    AdviceIsNeverLimbo(shown);
    decision := Switches(switches);
    match advice {
      case TraNone => decision := Ask();
      case TraRollback =>
        if SwCommit in switches {
          decision := Ask();
        } else if SwRollback in switches || SwTwoPhase in switches {
          decision := Switches(switches + {SwRollback});
        } else if SwPrompt in switches {
          decision := Ask();
        }
      case TraCommit =>
        if SwRollback in switches {
          decision := Ask();
        } else if SwCommit in switches || SwTwoPhase in switches {
          decision := Switches(switches + {SwCommit});
        } else if SwPrompt in switches {
          decision := Ask();
        }
      case TraUnknown => decision := Ask();
      case TraLimbo =>
        if SwCommit !in switches && SwRollback !in switches {
          decision := Ask();
        }
    }
  }

  /** Reconnect every part that was seen in limbo. */
  method SettleParts(trans: seq<Tdr>, sw: set<Switch>, shown: seq<TraState>, accepted: seq<bool>)
    requires Distinct(trans) && |shown| == |accepted| == |trans| && States(trans) == shown
    modifies trans
    ensures States(trans) == shown
    ensures Parts(trans) == AllSettled(old(Parts(trans)), shown, OutcomeOf(Switches(sw)), accepted)
  {
    hide OutcomeOf, Settled;
    ghost var before := Parts(trans);
    ghost var after := AllSettled(before, shown, OutcomeOf(Switches(sw)), accepted);
    for i := 0 to |trans|
      invariant forall j :: 0 <= j < |trans| ==> trans[j].state == shown[j]
      invariant forall j :: 0 <= j < i ==> trans[j].part == after[j]
      invariant forall j :: i <= j < |trans| ==> trans[j].part == before[j]
    {
      if trans[i].state == TraLimbo {
        var failed := Reconnect(trans[i], sw, accepted[i]);
      }
    }
  }

  /** A call settles the parts by what is decided; without a switch it leaves them as they are. */
  lemma OutcomeMeans(parts: seq<Part>, shown: seq<TraState>, sw: set<Switch>, accepted: seq<bool>)
    requires |shown| == |accepted| == |parts|
    ensures var d := Decide(Advise(shown), sw);
            && Recover(parts, shown, sw, accepted) == AllSettled(parts, shown, OutcomeOf(d), accepted)
            && (d.EndOfInput? || (SwCommit !in d.sw && SwRollback !in d.sw) ==>
               Recover(parts, shown, sw, accepted) == parts)
  {
    hide Advise, Decide;
  }

  /** Commit or roll back one part; the commit switch is looked at first. With neither switch the answer of `ask` ends
      it, and a database that refuses leaves the part as it is. */
  method Reconnect(t: Tdr, sw: set<Switch>, accepted: bool) returns (error: bool)
    modifies t`part
    ensures t.part == if accepted then Settled(old(t.part), OutcomeOf(Switches(sw))) else old(t.part)
    ensures error <==> !accepted || old(t.part) != Prepared || (SwCommit !in sw && SwRollback !in sw)
  {
    if !accepted || t.part != Prepared {
      return true;
    }
    var decision := Switches(sw);
    if SwCommit !in sw && SwRollback !in sw {
      decision := Ask();
      if decision.EndOfInput? {
        return true;
      }
    }
    t.part := if SwCommit in sw then Committed else RolledBack;
    return false;
  }

  /** One recovery call. A transaction without a description (`trans` is empty) has the one part `own`, which is
      reconnected without advice. */
  method ReconnectMultiple(own: Tdr, trans: seq<Tdr>, switches: set<Switch>, shown: seq<TraState>, accepted: seq<bool>,
                           ownAccepted: bool)
    returns (error: bool)
    requires Distinct(trans) && |shown| == |accepted| == |trans|
    modifies own`part, trans
    ensures trans == [] ==>
              && own.part ==
                 (if ownAccepted then Settled(old(own.part), OutcomeOf(Switches(switches))) else old(own.part))
              && (error <==>
                  !ownAccepted || old(own.part) != Prepared || (SwCommit !in switches && SwRollback !in switches))
    ensures trans != [] ==>
              && States(trans) == shown && Parts(trans) == Recover(old(Parts(trans)), shown, switches, accepted)
              && (error <==> Decide(Advise(shown), switches).EndOfInput?)
              && (own !in trans ==> own.part == old(own.part))
  {
    if trans == [] {
      error := Reconnect(own, switches, ownAccepted);
    } else {
      error := ReconnectParts(trans, switches, shown, accepted);
    }
  }

  // ---------------------------------------------------------------- the protocol

  /** What a database may report for a part: `TraUnknown` when it cannot be reached, a missing record
      for a part that was never prepared and, possibly, for one that has committed. */
  predicate Shows(part: Part, seen: TraState) {
    || seen == TraUnknown
    || match part
       case Active => seen == TraNone
       case Prepared => seen == TraLimbo
       case Committed => seen == TraCommit || seen == TraNone
       case RolledBack => seen == TraRollback
  }

  datatype Coordinator = Preparing(next: nat) | Committing(next: nat) | RollingBack(next: nat) | Crashed

  /** A recovery call in progress: the states read so far, in list order. */
  datatype Recovery = Recovery(view: seq<TraState>, sw: set<Switch>)

  datatype System = System(parts: seq<Part>, coordinator: Coordinator, recoveries: map<nat, Recovery>)

  datatype Step =
    | Prepare
    | StartCommit
    | CommitNext
    | StartRollback
    | RollbackNext
    | Crash
    | StartRecovery(id: nat, sw: set<Switch>)
    | ReadState(id: nat, seen: TraState)
    | ReconnectPart(id: nat, i: nat)

  function Start(n: nat): System {
    System(seq(n, _ => Active), Preparing(0), map[])
  }

  /** A recovery call starts only after the crash; a reconnect that fails is a step that is not taken. */
  predicate Enabled(s: System, step: Step) {
    match step
    case Prepare => s.coordinator.Preparing? && s.coordinator.next < |s.parts|
    case StartCommit => s.coordinator.Preparing? && s.coordinator.next == |s.parts|
    case CommitNext => s.coordinator.Committing? && s.coordinator.next < |s.parts|
    case StartRollback => s.coordinator.Preparing?
    case RollbackNext => s.coordinator.RollingBack? && s.coordinator.next < |s.parts|
    case Crash => !s.coordinator.Crashed?
    case StartRecovery(id, _) => s.coordinator.Crashed? && id !in s.recoveries
    case ReadState(id, seen) =>
      && s.coordinator.Crashed? && id in s.recoveries
      && |s.recoveries[id].view| < |s.parts|
      && Shows(s.parts[|s.recoveries[id].view|], seen)
    case ReconnectPart(id, i) =>
      && s.coordinator.Crashed? && id in s.recoveries && i < |s.parts|
      && |s.recoveries[id].view| == |s.parts|
      && s.recoveries[id].view[i] == TraLimbo
  }

  function Apply(s: System, step: Step): System
    requires Enabled(s, step)
  {
    match step
    case Prepare => s.(parts := s.parts[s.coordinator.next := Prepared],
         coordinator := Preparing(s.coordinator.next + 1))
    case StartCommit => s.(coordinator := Committing(0))
    case CommitNext => s.(parts := s.parts[s.coordinator.next := Committed],
         coordinator := Committing(s.coordinator.next + 1))
    case StartRollback => s.(coordinator := RollingBack(0))
    case RollbackNext => s.(parts := s.parts[s.coordinator.next := RolledBack],
         coordinator := RollingBack(s.coordinator.next + 1))
    case Crash => s.(coordinator := Crashed)
    case StartRecovery(id, sw) => s.(recoveries := s.recoveries[id := Recovery([], sw)])
    case ReadState(id, seen) =>
      var r := s.recoveries[id];
      s.(recoveries := s.recoveries[id := r.(view := r.view + [seen])])
    case ReconnectPart(id, i) =>
      var r := s.recoveries[id];
      s.(parts := s.parts[i := Settled(s.parts[i], Act(r.view, r.sw))])
  }

  ghost predicate Run(s: System, steps: seq<Step>, t: System)
    decreases |steps|
  {
    if steps == [] then s == t
    else Enabled(s, steps[0]) && Run(Apply(s, steps[0]), steps[1..], t)
  }

  // ---------------------------------------------------------------- the invariant

  /** Before the crash the parts are where the coordinator has put them. */
  ghost predicate InOrder(s: System) {
    match s.coordinator
    case Preparing(k) =>
      && k <= |s.parts|
      && (forall i :: 0 <= i < k ==> s.parts[i] == Prepared)
      && (forall i :: k <= i < |s.parts| ==> s.parts[i] == Active)
    case Committing(k) =>
      && k <= |s.parts|
      && (forall i :: 0 <= i < k ==> s.parts[i] == Committed)
      && (forall i :: k <= i < |s.parts| ==> s.parts[i] == Prepared)
    case RollingBack(k) =>
      && k <= |s.parts|
      && (forall i :: 0 <= i < k ==> s.parts[i] == RolledBack)
      && (forall i :: k <= i < |s.parts| ==> s.parts[i] == Prepared || s.parts[i] == Active)
      && (k == 0 && |s.parts| > 0 && s.parts[0] == Active ==> forall i :: 0 <= i < |s.parts| ==> s.parts[i] == Active)
    case Crashed => true
  }

  /** The coordinator had begun to commit, which it does with the first part. */
  ghost predicate BoundToCommit(parts: seq<Part>) {
    && |parts| > 0 && parts[0] == Committed
    && forall i :: 0 <= i < |parts| ==> parts[i] == Prepared || parts[i] == Committed
  }

  /** It had not: nothing has committed, and if even the first part was never prepared, none was. */
  ghost predicate BoundToAbort(parts: seq<Part>) {
    && (forall i :: 0 <= i < |parts| ==> parts[i] != Committed)
    && (|parts| > 0 && parts[0] == Active ==> forall i :: 0 <= i < |parts| ==> parts[i] == Active)
  }

  /** What a recovery can have read, at whatever times it read it. */
  ghost predicate CommitView(view: seq<TraState>) {
    && (forall i :: 0 <= i < |view| ==> view[i] != TraRollback)
    && (|view| > 0 ==> view[0] == TraCommit || view[0] == TraNone || view[0] == TraUnknown)
  }

  ghost predicate AbortView(parts: seq<Part>, view: seq<TraState>) {
    && |view| <= |parts|
    && (forall i :: 0 <= i < |view| ==> view[i] != TraCommit)
    && (|view| > 0 && view[0] == TraNone ==> parts[0] == Active)
    && (|view| > 0 && parts[0] == Active ==> forall i :: 0 <= i < |view| ==>
       view[i] == TraNone || view[i] == TraUnknown)
  }

  ghost predicate Invariant(s: System) {
    && InOrder(s)
    && (!s.coordinator.Crashed? ==> s.recoveries == map[])
    && (BoundToCommit(s.parts) || BoundToAbort(s.parts))
    && (BoundToCommit(s.parts) ==> forall id :: id in s.recoveries ==> CommitView(s.recoveries[id].view))
    && (BoundToAbort(s.parts) ==> forall id :: id in s.recoveries ==> AbortView(s.parts, s.recoveries[id].view))
  }

  /** A view taken of a transaction that is bound to commit never leads to a rollback. */
  lemma CommitViewNeverAborts(view: seq<TraState>)
    requires CommitView(view)
    ensures Advise(view) != TraRollback && !Contradicted(view)
  {
    if Advise(view) == TraRollback {
      var i := AdviceHasSpeaker(view);
    }
  }

  /** A view taken of a transaction that is bound to abort never leads to a commit of a part in limbo. */
  lemma AbortViewNeverCommits(parts: seq<Part>, view: seq<TraState>)
    requires AbortView(parts, view)
    ensures TraLimbo in view ==> Advise(view) != TraCommit
    ensures !Contradicted(view)
  {
    if Advise(view) == TraCommit {
      var i := AdviceHasSpeaker(view);
    }
  }

  lemma StartHasInvariant(n: nat)
    ensures Invariant(Start(n))
  {
  }

  lemma CoordinatorKeepsInvariant(s: System, step: Step)
    requires Invariant(s) && Enabled(s, step)
    requires step.Prepare? || step.StartCommit? || step.CommitNext? || step.StartRollback? || step.RollbackNext? ||
             step.Crash?
    ensures Invariant(Apply(s, step))
  {
  }

  lemma ReadKeepsInvariant(s: System, step: Step)
    requires Invariant(s) && Enabled(s, step)
    requires step.StartRecovery? || step.ReadState?
    ensures Invariant(Apply(s, step))
  {
    var t := Apply(s, step);
    if step.ReadState? {
      var before := s.recoveries[step.id].view;
      var after := t.recoveries[step.id].view;
      assert after == before + [step.seen];
      assert forall i :: 0 <= i < |before| ==> after[i] == before[i];
      if BoundToCommit(s.parts) {
        assert CommitView(after);
      }
      if BoundToAbort(s.parts) {
        assert AbortView(s.parts, after);
      }
    }
  }

  lemma ReconnectKeepsInvariant(s: System, step: Step)
    requires Invariant(s) && Enabled(s, step) && step.ReconnectPart?
    ensures Invariant(Apply(s, step))
  {
    var r := s.recoveries[step.id];
    ActFollowsAdvice(r.view, r.sw);
    if BoundToCommit(s.parts) {
      CommitViewNeverAborts(r.view);
    } else {
      AbortViewNeverCommits(s.parts, r.view);
    }
  }

  lemma StepKeepsInvariant(s: System, step: Step)
    requires Invariant(s) && Enabled(s, step)
    ensures Invariant(Apply(s, step))
  {
    match step
    case StartRecovery(_, _) => ReadKeepsInvariant(s, step);
    case ReadState(_, _) => ReadKeepsInvariant(s, step);
    case ReconnectPart(_, _) => ReconnectKeepsInvariant(s, step);
    case _ => CoordinatorKeepsInvariant(s, step);
  }

  lemma {:induction false} RunKeepsInvariant(s: System, steps: seq<Step>, t: System)
    requires Invariant(s) && Run(s, steps, t)
    ensures Invariant(t)
    decreases |steps|
  {
    if steps != [] {
      StepKeepsInvariant(s, steps[0]);
      RunKeepsInvariant(Apply(s, steps[0]), steps[1..], t);
    }
  }

  // ---------------------------------------------------------------- the theorems

  /** Two-phase commit keeps its promise: over every run, no part is committed while another is rolled
      back, and no part is committed while another was never even prepared. */
  lemma Atomicity(n: nat, steps: seq<Step>, s: System, i: nat, j: nat)
    requires Run(Start(n), steps, s) && i < |s.parts| && j < |s.parts|
    ensures s.parts[i] == Committed ==> s.parts[j] == Committed || s.parts[j] == Prepared
  {
    StartHasInvariant(n);
    RunKeepsInvariant(Start(n), steps, s);
  }

  /** Over every run, whatever a recovery has read, at whatever moments, is never found inconsistent. */
  lemma NeverInconsistent(n: nat, steps: seq<Step>, s: System, id: nat)
    requires Run(Start(n), steps, s) && id in s.recoveries
    ensures !Contradicted(s.recoveries[id].view)
  {
    StartHasInvariant(n);
    RunKeepsInvariant(Start(n), steps, s);
    if BoundToCommit(s.parts) {
      CommitViewNeverAborts(s.recoveries[id].view);
    } else {
      AbortViewNeverCommits(s.parts, s.recoveries[id].view);
    }
  }

  /** Over every run, no advice drawn from what a recovery has read goes against a visible outcome. */
  lemma NeverFooled(n: nat, steps: seq<Step>, s: System, id: nat)
    requires Run(Start(n), steps, s) && id in s.recoveries
    ensures !UnsafeAdvice(s.recoveries[id].view) && !Fooled(s.recoveries[id].view)
  {
    StartHasInvariant(n);
    RunKeepsInvariant(Start(n), steps, s);
    var view := s.recoveries[id].view;
    if BoundToCommit(s.parts) {
      CommitViewNeverAborts(view);
    } else {
      AbortViewNeverCommits(s.parts, view);
    }
    UnsafeExactlyWhenFooled(view);
  }

  /** A settled part stays as it is, however the run goes on. */
  lemma {:induction false} SettledForGood(n: nat, before: seq<Step>, s: System, steps: seq<Step>, t: System, i: nat)
    requires Run(Start(n), before, s) && Run(s, steps, t) && i < |s.parts|
    requires s.parts[i] == Committed || s.parts[i] == RolledBack
    ensures i < |t.parts| && t.parts[i] == s.parts[i]
  {
    StartHasInvariant(n);
    RunKeepsInvariant(Start(n), before, s);
    SettledStays(s, steps, t, i);
  }

  lemma {:induction false} SettledStays(s: System, steps: seq<Step>, t: System, i: nat)
    requires Invariant(s) && Run(s, steps, t) && i < |s.parts|
    requires s.parts[i] == Committed || s.parts[i] == RolledBack
    ensures i < |t.parts| && t.parts[i] == s.parts[i]
    decreases |steps|
  {
    if steps != [] {
      StepKeepsInvariant(s, steps[0]);
      SettledStays(Apply(s, steps[0]), steps[1..], t, i);
    }
  }

  /** Everything is in limbo: the one situation no recovery call can ever decide. */
  ghost predicate AllPrepared(parts: seq<Part>) {
    forall i :: 0 <= i < |parts| ==> parts[i] == Prepared
  }

  /** Recovery finishes the job: with every database reachable and every reconnect accepted, one
      two-phase call after the crash leaves no part in limbo, except when all of them are, in which
      case it leaves everything untouched. */
  lemma RecoveryCompletes(n: nat, steps: seq<Step>, s: System, shown: seq<TraState>)
    requires Run(Start(n), steps, s) && s.coordinator.Crashed? && |shown| == |s.parts|
    requires forall i :: 0 <= i < |shown| ==> Shows(s.parts[i], shown[i]) && shown[i] != TraUnknown
    ensures var after := Recover(s.parts, shown, {SwTwoPhase}, seq(|shown|, _ => true));
            && (AllPrepared(s.parts) ==> after == s.parts)
            && (!AllPrepared(s.parts) ==> forall i :: 0 <= i < |after| ==> after[i] != Prepared)
  {
    hide *;
    StartHasInvariant(n);
    RunKeepsInvariant(Start(n), steps, s);
    InvariantBinds(s);
    CompletesFrom(s.parts, shown);
  }

  lemma InvariantBinds(s: System)
    requires Invariant(s)
    ensures BoundToCommit(s.parts) || BoundToAbort(s.parts)
  {
  }

  lemma CompletesFrom(parts: seq<Part>, shown: seq<TraState>)
    requires |shown| == |parts| && (BoundToCommit(parts) || BoundToAbort(parts))
    requires forall i :: 0 <= i < |shown| ==> Shows(parts[i], shown[i]) && shown[i] != TraUnknown
    ensures var after := Recover(parts, shown, {SwTwoPhase}, seq(|shown|, _ => true));
            && (AllPrepared(parts) ==> after == parts)
            && (!AllPrepared(parts) ==> forall i :: 0 <= i < |after| ==> after[i] != Prepared)
  {
    hide Advise, Contradicted, BoundToCommit, BoundToAbort, Decide;
    var outcome := Act(shown, {SwTwoPhase});
    if AllPrepared(parts) {
      AllInLimbo(shown);
    } else if p :| 0 <= p < |parts| && parts[p] == Prepared {
      FullViewDecides(parts, shown);
      TwoPhaseActs(shown);
    }
  }

  lemma AllInLimbo(shown: seq<TraState>)
    requires forall i :: 0 <= i < |shown| ==> shown[i] == TraLimbo
    ensures Act(shown, {SwTwoPhase}) == Nothing
  {
    if shown != [] {
      AdviceMeaning(shown);
    }
  }

  lemma TwoPhaseActs(shown: seq<TraState>)
    requires Advise(shown) == TraCommit || Advise(shown) == TraRollback
    ensures Act(shown, {SwTwoPhase}) == Settle(if Advise(shown) == TraCommit then Committed else RolledBack)
  {
    hide Advise;
  }

  /** With every database reachable, the advice is to commit or to roll back as soon as one part is in
      limbo and another is not. */
  lemma FullViewDecides(parts: seq<Part>, shown: seq<TraState>)
    requires |shown| == |parts| && (BoundToCommit(parts) || BoundToAbort(parts))
    requires forall i :: 0 <= i < |shown| ==> Shows(parts[i], shown[i]) && shown[i] != TraUnknown
    requires !AllPrepared(parts) && Prepared in parts
    ensures Advise(shown) == TraCommit || Advise(shown) == TraRollback
  {
    assert !Contradicted(shown) by {
      if BoundToCommit(parts) {
        CommitViewNeverAborts(shown);
      } else {
        AbortViewNeverCommits(parts, shown);
      }
    }
    var k: nat;
    if parts[0] == Prepared {
      k :| 0 <= k < |parts| && parts[k] != Prepared;
    } else {
      k :| 0 <= k < |parts| && parts[k] == Prepared;
    }
    var i := AdviceOfLastSpeaker(shown, k);
  }

  // ---------------------------------------------------------------- a call is a run

  lemma {:induction false} RunsCompose(s: System, first: seq<Step>, m: System, second: seq<Step>, t: System)
    requires Run(s, first, m) && Run(m, second, t)
    ensures Run(s, first + second, t)
    decreases |first|
  {
    if first == [] {
      assert first + second == second;
    } else {
      RunsCompose(Apply(s, first[0]), first[1..], m, second, t);
      assert (first + second)[1..] == first[1..] + second;
    }
  }

  lemma {:induction false} ReadingIsARun(s: System, id: nat, sw: set<Switch>, shown: seq<TraState>, k: nat)
    returns (steps: seq<Step>)
    requires s.coordinator.Crashed? && id in s.recoveries && |shown| == |s.parts| && k <= |shown|
    requires s.recoveries[id] == Recovery(shown[..k], sw)
    requires forall i :: 0 <= i < |shown| ==> Shows(s.parts[i], shown[i])
    ensures Run(s, steps, s.(recoveries := s.recoveries[id := Recovery(shown, sw)]))
    decreases |shown| - k
  {
    if k == |shown| {
      assert shown[..k] == shown;
      steps := [];
      assert s.recoveries == s.recoveries[id := Recovery(shown, sw)];
    } else {
      var t := Apply(s, ReadState(id, shown[k]));
      assert shown[..k] + [shown[k]] == shown[..k + 1];
      var rest := ReadingIsARun(t, id, sw, shown, k + 1);
      steps := [ReadState(id, shown[k])] + rest;
      assert steps[1..] == rest;
      assert t.recoveries[id := Recovery(shown, sw)] == s.recoveries[id := Recovery(shown, sw)];
    }
  }

  lemma {:induction false} SettlingIsARun(s: System, id: nat, accepted: seq<bool>, k: nat) returns (steps: seq<Step>)
    requires s.coordinator.Crashed? && id in s.recoveries && |s.recoveries[id].view| == |s.parts| == |accepted|
    requires k <= |accepted|
    ensures var r := s.recoveries[id];
            Run(s, steps, s.(parts := s.parts[..k] + Recover(s.parts, r.view, r.sw, accepted)[k..]))
    decreases |accepted| - k
  {
    hide Recover, Act, Settled;
    var r := s.recoveries[id];
    if k == |accepted| {
      steps := [];
      assert s.parts[..k] + Recover(s.parts, r.view, r.sw, accepted)[k..] == s.parts;
    } else if r.view[k] == TraLimbo && accepted[k] {
      var t := Apply(s, ReconnectPart(id, k));
      var rest := SettlingIsARun(t, id, accepted, k + 1);
      steps := [ReconnectPart(id, k)] + rest;
      assert steps[1..] == rest;
      SettleNext(s.parts, r, accepted, k);
    } else {
      steps := SettlingIsARun(s, id, accepted, k + 1);
      SettleNext(s.parts, r, accepted, k);
    }
  }

  /** Settling one part first does not change what a whole call leaves behind from there on. */
  lemma SettleNext(parts: seq<Part>, r: Recovery, accepted: seq<bool>, k: nat)
    requires |r.view| == |parts| == |accepted| && k < |parts|
    ensures var after := Recover(parts, r.view, r.sw, accepted);
            && |after| == |parts|
            && (!(r.view[k] == TraLimbo && accepted[k]) ==> parts[..k + 1] + after[k + 1..] == parts[..k] + after[k..])
            && (r.view[k] == TraLimbo && accepted[k] ==>
                  var next := parts[k := Settled(parts[k], Act(r.view, r.sw))];
                  next[..k + 1] + Recover(next, r.view, r.sw, accepted)[k + 1..] == parts[..k] + after[k..])
  {
    hide Act, Settled;
  }

  /** Every call of `ReconnectParts` on a crashed transaction is one of the runs the theorems speak
      of, whatever its switches, whichever databases answer and whichever reconnects go through. */
  lemma CallIsARun(s: System, sw: set<Switch>, shown: seq<TraState>, accepted: seq<bool>)
    requires s.coordinator.Crashed? && |shown| == |accepted| == |s.parts|
    requires forall i :: 0 <= i < |shown| ==> Shows(s.parts[i], shown[i])
    ensures exists steps, t ::
              Run(s, steps, t) && t.coordinator.Crashed? && t.parts == Recover(s.parts, shown, sw, accepted)
  {
    var id := FreshId(s.recoveries);
    var s1 := Apply(s, StartRecovery(id, sw));
    assert shown[..0] == [];
    var reading := ReadingIsARun(s1, id, sw, shown, 0);
    var s2 := s1.(recoveries := s1.recoveries[id := Recovery(shown, sw)]);
    var settling := SettlingIsARun(s2, id, accepted, 0);
    var t := s2.(parts := s2.parts[..0] + Recover(s.parts, shown, sw, accepted)[0..]);
    assert t.parts == Recover(s.parts, shown, sw, accepted);
    RunsCompose(s1, reading, s2, settling, t);
    var steps := [StartRecovery(id, sw)] + (reading + settling);
    assert steps[1..] == reading + settling;
    assert Run(s, steps, t);
  }

  lemma FreshId(m: map<nat, Recovery>) returns (id: nat)
    ensures id !in m
  {
    var ids := m.Keys;
    id := 0;
    while ids != {}
      invariant forall k :: k in m.Keys && k !in ids ==> k < id
    {
      var k :| k in ids;
      ids := ids - {k};
      id := if k < id then id else k + 1;
    }
  }
}
