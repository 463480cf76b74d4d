/** attr.c: collecting the attributes of a path, with macros that may refer to each other in circles. */
module Attributes {
  import opened Basics

  datatype AttrValue = Unknown | Unset | True | False | Text(s: string)

  /** What a rule sets one attribute to. */
  datatype AttrState = AttrState(attr: nat, setto: AttrValue)

  /** A rule of an attributes file: for the paths a pattern matches, or the definition of a macro. */
  datatype MatchAttr = MatchAttr(isMacro: bool, attr: nat, pattern: string, state: seq<AttrState>)

  /** One file of the attribute stack, with the directory it stands in. */
  datatype AttrFile = AttrFile(origin: string, attrs: seq<MatchAttr>)

  /** What does not change during a collection: the stack, from the top, and which attributes may be macros. */
  datatype Env = Env(stack: seq<AttrFile>, maybeMacro: seq<bool>) {
    /** There are `n` attributes, and rules set them to something. */
    ghost predicate Valid(n: nat) {
      && |maybeMacro| == n
      && forall i, j, k {:trigger stack[i].attrs[j].state[k]} ::
           0 <= i < |stack| && 0 <= j < |stack[i].attrs| && 0 <= k < |stack[i].attrs[j].state| ==>
           stack[i].attrs[j].state[k].attr < n && stack[i].attrs[j].state[k].setto != Unknown
    }
  }

  ghost predicate Sets(state: seq<AttrState>, n: nat) {
    forall k {:trigger state[k]} :: 0 <= k < |state| ==> state[k].attr < n && state[k].setto != Unknown
  }

  function Unknowns(values: seq<AttrValue>): (n: nat)
    ensures n <= |values|
  {
    if values == [] then 0
    else Unknowns(values[..|values| - 1]) + if values[|values| - 1] == Unknown then 1 else 0
  }

  lemma {:induction false} UnknownsSet(values: seq<AttrValue>, a: nat, v: AttrValue)
    requires a < |values| && values[a] == Unknown && v != Unknown
    ensures Unknowns(values[a := v]) == Unknowns(values) - 1
  {
    var n := |values| - 1;
    if a < n {
      UnknownsSet(values[..n], a, v);
      assert values[a := v][..n] == values[..n][a := v];
    } else {
      assert values[a := v][..n] == values[..n];
    }
  }

  lemma {:induction false} NoneUnknown(values: seq<AttrValue>)
    ensures Unknowns(values) == 0 <==> forall a {:trigger values[a]} :: 0 <= a < |values| ==> values[a] != Unknown
  {
    if values != [] {
      NoneUnknown(values[..|values| - 1]);
    }
  }

  lemma {:induction false} AllUnknown(values: seq<AttrValue>)
    requires forall a {:trigger values[a]} :: 0 <= a < |values| ==> values[a] == Unknown
    ensures Unknowns(values) == |values|
  {
    if values != [] {
      AllUnknown(values[..|values| - 1]);
    }
  }

  // ---- Collection without early exits -------------------------------------------------------

  /** The definition of macro `nr` in one file: the last one. */
  function MacroInFile(attrs: seq<MatchAttr>, nr: nat): Option<MatchAttr> {
    if attrs == [] then None
    else
      var last := attrs[|attrs| - 1];
      if last.isMacro && last.attr == nr then Some(last) else MacroInFile(attrs[..|attrs| - 1], nr)
  }

  /** The definition that counts: that of the topmost file that has one. */
  function Macro(stack: seq<AttrFile>, nr: nat): Option<MatchAttr> {
    if stack == [] then None
    else
      var here := MacroInFile(stack[0].attrs, nr);
      if here.Some? then here else Macro(stack[1..], nr)
  }

  lemma {:induction false} MacroSets(stack: seq<AttrFile>, maybeMacro: seq<bool>, n: nat, nr: nat)
    requires Env(stack, maybeMacro).Valid(n)
    ensures Macro(stack, nr).Some? ==> Sets(Macro(stack, nr).value.state, n)
  {
    if stack != [] {
      var j := MacroInFileIs(stack[0].attrs, nr);
      assert forall i, j :: 0 <= i < |stack[1..]| && 0 <= j < |stack[1..][i].attrs| ==>
        stack[1..][i].attrs[j] == stack[i + 1].attrs[j];
      MacroSets(stack[1..], maybeMacro, n, nr);
    }
  }

  /** The j-th rule of the i-th file defines the macro `nr`. */
  predicate DefinesAt(stack: seq<AttrFile>, nr: nat, i: nat, j: nat) {
    && i < |stack| && j < |stack[i].attrs|
    && stack[i].attrs[j].isMacro && stack[i].attrs[j].attr == nr
  }

  /** That is the definition that counts: none stands in a file above, none further down in the same file. */
  ghost predicate Definition(stack: seq<AttrFile>, nr: nat, i: nat, j: nat) {
    && DefinesAt(stack, nr, i, j)
    && (forall m: nat :: m > j ==> !DefinesAt(stack, nr, i, m))
    && (forall f: nat, m: nat :: f < i ==> !DefinesAt(stack, nr, f, m))
  }

  lemma {:induction false} MacroInFileIs(attrs: seq<MatchAttr>, nr: nat) returns (j: nat)
    ensures MacroInFile(attrs, nr).Some? ==>
      && j < |attrs| && attrs[j].isMacro && attrs[j].attr == nr && MacroInFile(attrs, nr).value == attrs[j]
      && forall m :: j < m < |attrs| ==> !(attrs[m].isMacro && attrs[m].attr == nr)
    ensures MacroInFile(attrs, nr).None? ==> forall m :: 0 <= m < |attrs| ==> !(attrs[m].isMacro && attrs[m].attr == nr)
  {
    j := 0;
    if attrs != [] {
      var n := |attrs| - 1;
      if attrs[n].isMacro && attrs[n].attr == nr {
        j := n;
      } else {
        j := MacroInFileIs(attrs[..n], nr);
        assert forall m :: 0 <= m < n ==> attrs[..n][m] == attrs[m];
      }
    }
  }

  /** The definition found is the one that counts, and none is found exactly if there is none. */
  lemma {:induction false} MacroIs(stack: seq<AttrFile>, nr: nat) returns (i: nat, j: nat)
    ensures Macro(stack, nr).Some? ==> Definition(stack, nr, i, j) && Macro(stack, nr).value == stack[i].attrs[j]
    ensures Macro(stack, nr).None? <==> forall f: nat, m: nat :: !DefinesAt(stack, nr, f, m)
  {
    i, j := 0, 0;
    if stack != [] {
      j := MacroInFileIs(stack[0].attrs, nr);
      if MacroInFile(stack[0].attrs, nr).Some? {
        assert DefinesAt(stack, nr, 0, j);
      } else {
        i, j := MacroIs(stack[1..], nr);
        forall f: nat, m: nat ensures DefinesAt(stack, nr, f, m) <==> f > 0 && DefinesAt(stack[1..], nr, f - 1, m) {}
        i := i + 1;
      }
    }
  }

  /** There is only one definition that counts. */
  lemma DefinitionIsMacro(stack: seq<AttrFile>, nr: nat, i: nat, j: nat)
    requires Definition(stack, nr, i, j)
    ensures Macro(stack, nr) == Some(stack[i].attrs[j])
  {
    var f, m := MacroIs(stack, nr);
  }

  /** Known values stay; nothing becomes unknown. */
  ghost predicate Refines(before: seq<AttrValue>, after: seq<AttrValue>) {
    |after| == |before| && forall a {:trigger after[a]} :: 0 <= a < |before| && before[a] != Unknown ==>
      after[a] == before[a]
  }

  lemma {:induction false} RefinesUnknowns(before: seq<AttrValue>, after: seq<AttrValue>)
    requires Refines(before, after)
    ensures Unknowns(after) <= Unknowns(before)
  {
    if before != [] {
      RefinesUnknowns(before[..|before| - 1], after[..|after| - 1]);
    }
  }

  /** Set what is still unknown, from the k-th state down, and expand each macro that becomes true. */
  function FillStates(env: Env, values: seq<AttrValue>, state: seq<AttrState>, k: nat): (r: seq<AttrValue>)
    requires env.Valid(|values|) && Sets(state, |values|) && k <= |state|
    ensures Refines(values, r)
    decreases Unknowns(values), 1, k
  {
    if k == 0 then values
    else
      var s := state[k - 1];
      if values[s.attr] != Unknown then FillStates(env, values, state, k - 1)
      else
        UnknownsSet(values, s.attr, s.setto);
        var next := Expand(env, values[s.attr := s.setto], s.attr);
        RefinesUnknowns(values[s.attr := s.setto], next);
        FillStates(env, next, state, k - 1)
  }

  /** Expand the macro `nr` if it is one and is set to true. */
  function Expand(env: Env, values: seq<AttrValue>, nr: nat): (r: seq<AttrValue>)
    requires env.Valid(|values|) && nr < |values|
    ensures Refines(values, r)
    decreases Unknowns(values), 2
  {
    if values[nr] != True || !env.maybeMacro[nr] then values
    else
      var a := Macro(env.stack, nr);
      MacroSets(env.stack, env.maybeMacro, |values|, nr);
      if a.None? then values else FillStates(env, values, a.value.state, |a.value.state|)
  }

  /** The rules of one file that match, from the last one down. */
  function FillFile(env: Env, matches: (string, string) -> bool, values: seq<AttrValue>, file: AttrFile,
      k: nat): (r: seq<AttrValue>)
    requires env.Valid(|values|) && file in env.stack && k <= |file.attrs|
    ensures Refines(values, r)
    decreases k
  {
    if k == 0 then values
    else
      var a := file.attrs[k - 1];
      FileSets(env, |values|, file, k - 1);
      if a.isMacro || !matches(file.origin, a.pattern) then FillFile(env, matches, values, file, k - 1)
      else FillFile(env, matches, FillStates(env, values, a.state, |a.state|), file, k - 1)
  }

  lemma FileSets(env: Env, n: nat, file: AttrFile, k: nat)
    requires env.Valid(n) && file in env.stack && k < |file.attrs|
    ensures Sets(file.attrs[k].state, n)
  {
    var i :| 0 <= i < |env.stack| && env.stack[i] == file;
    assert forall m :: 0 <= m < |file.attrs[k].state| ==> file.attrs[k].state[m] == env.stack[i].attrs[k].state[m];
  }

  /** All files, from the top of the stack down. */
  function FillStack(env: Env, matches: (string, string) -> bool, values: seq<AttrValue>, i: nat): (r: seq<AttrValue>)
    requires env.Valid(|values|) && i <= |env.stack|
    ensures Refines(values, r)
    decreases |env.stack| - i
  {
    if i == |env.stack| then values
    else FillStack(env, matches, FillFile(env, matches, values, env.stack[i], |env.stack[i].attrs|), i + 1)
  }

  // ---- When nothing is unknown, nothing changes ---------------------------------------------

  lemma {:induction false} AllKnown(values: seq<AttrValue>, after: seq<AttrValue>)
    requires Refines(values, after) && Unknowns(values) == 0
    ensures after == values
  {
    NoneUnknown(values);
  }

  // ---- What a collection amounts to ---------------------------------------------------------

  /** All attributes these states are about are known. */
  ghost predicate Applied(values: seq<AttrValue>, state: seq<AttrState>, k: nat) {
    forall j {:trigger state[j]} :: 0 <= j < k <= |state| && state[j].attr < |values| ==>
      values[state[j].attr] != Unknown
  }

  /** `nr` was unknown and is now true, and it is a macro. */
  ghost predicate Expanded(env: Env, before: seq<AttrValue>, after: seq<AttrValue>, nr: nat) {
    && nr < |before| == |after| == |env.maybeMacro|
    && before[nr] == Unknown && after[nr] == True && env.maybeMacro[nr] && Macro(env.stack, nr).Some?
  }

  /** Every macro that became true has been applied. */
  ghost predicate MacrosApplied(env: Env, before: seq<AttrValue>, after: seq<AttrValue>) {
    forall nr: nat {:trigger Macro(env.stack, nr)} :: Expanded(env, before, after, nr) ==>
      Applied(after, Macro(env.stack, nr).value.state, |Macro(env.stack, nr).value.state|)
  }

  /** Every value that was found stands in one of these states or in a macro that became true. */
  ghost predicate Justified(env: Env, before: seq<AttrValue>, after: seq<AttrValue>, state: seq<AttrState>, k: nat) {
    forall a: nat {:trigger after[a]} :: a < |before| == |after| && before[a] == Unknown && after[a] != Unknown ==>
      InStates(state, k, a, after[a]) || FromMacro(env, before, after, a)
  }

  ghost predicate InStates(state: seq<AttrState>, k: nat, a: nat, v: AttrValue) {
    exists j {:trigger state[j]} :: 0 <= j < k <= |state| && state[j] == AttrState(a, v)
  }

  ghost predicate FromMacro(env: Env, before: seq<AttrValue>, after: seq<AttrValue>, a: nat) {
    exists nr: nat {:trigger Macro(env.stack, nr)} :: Expanded(env, before, after, nr) && a < |after| &&
      AttrState(a, after[a]) in Macro(env.stack, nr).value.state
  }

  /** Filling in states leaves no attribute of theirs unknown, applies all macros on the way, and invents nothing. */
  lemma {:induction false} FillAmounts(env: Env, values: seq<AttrValue>, state: seq<AttrState>, k: nat)
    requires env.Valid(|values|) && Sets(state, |values|) && k <= |state|
    ensures var r := FillStates(env, values, state, k);
      Applied(r, state, k) && MacrosApplied(env, values, r) && Justified(env, values, r, state, k)
    decreases Unknowns(values), 1, k
  {
    if k > 0 {
      var s := state[k - 1];
      if values[s.attr] != Unknown {
        FillAmounts(env, values, state, k - 1);
        var r := FillStates(env, values, state, k - 1);
        hide Expand, Macro, MacrosApplied, Expanded, FromMacro;
        KnownState(env, values, state, k, r);
      } else {
        var now := values[s.attr := s.setto];
        UnknownsSet(values, s.attr, s.setto);
        var next := Expand(env, now, s.attr);
        RefinesUnknowns(now, next);
        ExpandAmounts(env, now, s.attr);
        hide Applied, MacrosApplied, Justified, ExpandedOne, Expand, Macro;
        FillAmounts(env, next, state, k - 1);
        OneMoreState(env, values, state, k, now, next, FillStates(env, next, state, k - 1));
      }
    }
  }

  /** A state about an attribute that is known already adds nothing. */
  lemma KnownState(env: Env, values: seq<AttrValue>, state: seq<AttrState>, k: nat, r: seq<AttrValue>)
    requires Sets(state, |values|) && 0 < k <= |state| && values[state[k - 1].attr] != Unknown && Refines(values, r)
    requires Applied(r, state, k - 1) && Justified(env, values, r, state, k - 1)
    ensures Applied(r, state, k) && Justified(env, values, r, state, k)
  {
    hide FromMacro;
  }

  /** What expanding `nr` amounts to. */
  ghost predicate ExpandedOne(env: Env, before: seq<AttrValue>, after: seq<AttrValue>, nr: nat) {
    && MacrosApplied(env, before, after) && nr < |before| == |env.maybeMacro|
    && (if before[nr] == True && env.maybeMacro[nr] && Macro(env.stack, nr).Some? then
          var m := Macro(env.stack, nr).value.state;
          Applied(after, m, |m|) && Justified(env, before, after, m, |m|)
        else after == before)
  }

  lemma {:induction false} ExpandAmounts(env: Env, values: seq<AttrValue>, nr: nat)
    requires env.Valid(|values|) && nr < |values|
    ensures ExpandedOne(env, values, Expand(env, values, nr), nr)
    decreases Unknowns(values), 2
  {
    if values[nr] == True && env.maybeMacro[nr] && Macro(env.stack, nr).Some? {
      MacroSets(env.stack, env.maybeMacro, |values|, nr);
      var m := Macro(env.stack, nr).value;
      FillAmounts(env, values, m.state, |m.state|);
    }
  }

  lemma OneMoreState(env: Env, values: seq<AttrValue>, state: seq<AttrState>, k: nat, now: seq<AttrValue>,
      next: seq<AttrValue>, r: seq<AttrValue>)
    requires Sets(state, |values|) && 0 < k <= |state| && values[state[k - 1].attr] == Unknown
    requires now == values[state[k - 1].attr := state[k - 1].setto] && Refines(now, next) && Refines(next, r)
    requires ExpandedOne(env, now, next, state[k - 1].attr)
    requires Applied(r, state, k - 1) && MacrosApplied(env, next, r) && Justified(env, next, r, state, k - 1)
    ensures Applied(r, state, k) && MacrosApplied(env, values, r) && Justified(env, values, r, state, k)
  {
    hide Macro;
    var s := state[k - 1];
    assert r[s.attr] == next[s.attr] == s.setto;
    forall nr: nat | Expanded(env, values, r, nr)
      ensures Applied(r, Macro(env.stack, nr).value.state, |Macro(env.stack, nr).value.state|)
    {
      assert nr != s.attr && next[nr] != Unknown ==> Expanded(env, now, next, nr);
      assert next[nr] == Unknown ==> Expanded(env, next, r, nr);
    }
    forall a: nat | a < |values| && values[a] == Unknown && r[a] != Unknown
      ensures InStates(state, k, a, r[a]) || FromMacro(env, values, r, a)
    {
      JustifiedBefore(env, values, state, k, now, next, r, a);
    }
  }

  lemma JustifiedBefore(env: Env, values: seq<AttrValue>, state: seq<AttrState>, k: nat, now: seq<AttrValue>,
      next: seq<AttrValue>, r: seq<AttrValue>, a: nat)
    requires Sets(state, |values|) && 0 < k <= |state| && values[state[k - 1].attr] == Unknown
    requires now == values[state[k - 1].attr := state[k - 1].setto] && Refines(now, next) && Refines(next, r)
    requires ExpandedOne(env, now, next, state[k - 1].attr) && Justified(env, next, r, state, k - 1)
    requires a < |values| && values[a] == Unknown && r[a] != Unknown
    ensures InStates(state, k, a, r[a]) || FromMacro(env, values, r, a)
  {
    hide Macro, MacrosApplied, Applied;
    var s := state[k - 1];
    if a == s.attr {
      assert state[k - 1] == AttrState(a, r[a]);
    } else if next[a] == Unknown {
      if FromMacro(env, next, r, a) {
        var nr: nat :| Expanded(env, next, r, nr) && AttrState(a, r[a]) in Macro(env.stack, nr).value.state;
        assert Expanded(env, values, r, nr);
      }
    } else {
      var m := Macro(env.stack, s.attr).value.state;
      if InStates(m, |m|, a, next[a]) {
        assert Expanded(env, values, r, s.attr);
      } else {
        var nr: nat :| Expanded(env, now, next, nr) && AttrState(a, next[a]) in Macro(env.stack, nr).value.state;
        assert Expanded(env, values, r, nr);
      }
    }
  }

  // ---- What the rules of the whole stack amount to ------------------------------------------

  /** A rule that is no macro and whose pattern matches. */
  predicate Fires(matches: (string, string) -> bool, file: AttrFile, a: MatchAttr) {
    !a.isMacro && matches(file.origin, a.pattern)
  }

  ghost function StatesOf(state: seq<AttrState>): set<AttrState> {
    set s | s in state
  }

  /** What one rule says of a path: nothing if it does not match it. */
  ghost function RuleStates(matches: (string, string) -> bool, file: AttrFile, a: MatchAttr): set<AttrState> {
    if Fires(matches, file, a) then StatesOf(a.state) else {}
  }

  /** What the first `k` rules of a file say of a path. */
  ghost function FileStates(matches: (string, string) -> bool, file: AttrFile, k: nat): set<AttrState>
    requires k <= |file.attrs|
  {
    if k == 0 then {}
    else RuleStates(matches, file, file.attrs[k - 1]) + FileStates(matches, file, k - 1)
  }

  /** What the files from the i-th down say of a path. */
  ghost function StackStates(env: Env, matches: (string, string) -> bool, i: nat): set<AttrState>
    requires i <= |env.stack|
    decreases |env.stack| - i
  {
    if i == |env.stack| then {}
    else FileStates(matches, env.stack[i], |env.stack[i].attrs|) + StackStates(env, matches, i + 1)
  }

  /**
   * What a collection from these states finds: a value for every attribute they are about, every macro
   * that becomes true applied in full, and no value that neither they nor such a macro give.
   */
  ghost predicate Found(env: Env, before: seq<AttrValue>, after: seq<AttrValue>, states: set<AttrState>) {
    && |after| == |before|
    && (forall s :: s in states && s.attr < |after| ==> after[s.attr] != Unknown)
    && MacrosApplied(env, before, after)
    && forall a: nat {:trigger after[a]} :: a < |after| && before[a] == Unknown && after[a] != Unknown ==>
         AttrState(a, after[a]) in states || FromMacro(env, before, after, a)
  }

  lemma FoundByRule(env: Env, before: seq<AttrValue>, state: seq<AttrState>)
    requires env.Valid(|before|) && Sets(state, |before|)
    ensures Found(env, before, FillStates(env, before, state, |state|), StatesOf(state))
  {
    FillAmounts(env, before, state, |state|);
    hide MacrosApplied, FromMacro, FillStates;
  }

  lemma FoundNothing(env: Env, values: seq<AttrValue>)
    ensures Found(env, values, values, {})
  {
    hide Macro;
  }

  lemma ExpandedEarlier(env: Env, before: seq<AttrValue>, mid: seq<AttrValue>, after: seq<AttrValue>, nr: nat)
    requires Refines(before, mid) && Refines(mid, after) && nr < |before|
    ensures Expanded(env, before, mid, nr) || Expanded(env, mid, after, nr) <==> Expanded(env, before, after, nr)
  {
    hide Macro;
  }

  lemma AppliedStays(before: seq<AttrValue>, after: seq<AttrValue>, state: seq<AttrState>, k: nat)
    requires Refines(before, after) && Applied(before, state, k)
    ensures Applied(after, state, k)
  {}

  lemma MacrosThen(env: Env, before: seq<AttrValue>, mid: seq<AttrValue>, after: seq<AttrValue>)
    requires Refines(before, mid) && Refines(mid, after)
    requires MacrosApplied(env, before, mid) && MacrosApplied(env, mid, after)
    ensures MacrosApplied(env, before, after)
  {
    hide Refines, Applied, Macro;
    forall nr: nat | Expanded(env, before, after, nr)
      ensures Applied(after, Macro(env.stack, nr).value.state, |Macro(env.stack, nr).value.state|)
    {
      ExpandedEarlier(env, before, mid, after, nr);
      if Expanded(env, before, mid, nr) {
        AppliedStays(mid, after, Macro(env.stack, nr).value.state, |Macro(env.stack, nr).value.state|);
      }
    }
  }

  lemma FromMacroThen(env: Env, before: seq<AttrValue>, mid: seq<AttrValue>, after: seq<AttrValue>, a: nat)
    requires Refines(before, mid) && Refines(mid, after) && a < |before|
    ensures FromMacro(env, before, mid, a) && mid[a] != Unknown ==> FromMacro(env, before, after, a)
    ensures FromMacro(env, mid, after, a) ==> FromMacro(env, before, after, a)
  {
    hide Macro, Expanded;
    forall nr: nat {:trigger Macro(env.stack, nr)} | nr < |before|
      ensures Expanded(env, before, mid, nr) || Expanded(env, mid, after, nr) ==> Expanded(env, before, after, nr)
    {
      ExpandedEarlier(env, before, mid, after, nr);
    }
    forall nr: nat {:trigger Macro(env.stack, nr)} ensures
      (Expanded(env, before, mid, nr) || Expanded(env, mid, after, nr) ==> nr < |before|)
    {
      ExpandedBound(env, before, mid, after, nr);
    }
  }

  lemma ExpandedBound(env: Env, before: seq<AttrValue>, mid: seq<AttrValue>, after: seq<AttrValue>, nr: nat)
    requires |before| == |mid|
    ensures Expanded(env, before, mid, nr) || Expanded(env, mid, after, nr) ==> nr < |before|
  {}

  /** One collection after the other finds what both together say. */
  lemma FoundThen(env: Env, before: seq<AttrValue>, mid: seq<AttrValue>, after: seq<AttrValue>, S: set<AttrState>,
      T: set<AttrState>)
    requires Refines(before, mid) && Refines(mid, after) && Found(env, before, mid, S) && Found(env, mid, after, T)
    ensures Found(env, before, after, S + T) && Refines(before, after)
  {
    hide FromMacro, MacrosApplied;
    MacrosThen(env, before, mid, after);
    forall a: nat | a < |after| && before[a] == Unknown && after[a] != Unknown
      ensures AttrState(a, after[a]) in S + T || FromMacro(env, before, after, a)
    {
      FromMacroThen(env, before, mid, after, a);
      assert mid[a] != Unknown ==> after[a] == mid[a];
    }
  }

  lemma {:induction false} FileAmounts(env: Env, matches: (string, string) -> bool, values: seq<AttrValue>,
      file: AttrFile, k: nat)
    requires env.Valid(|values|) && file in env.stack && k <= |file.attrs|
    ensures Found(env, values, FillFile(env, matches, values, file, k), FileStates(matches, file, k))
    decreases k
  {
    hide Found, Refines, FillStates, StatesOf;
    if k == 0 {
      FoundNothing(env, values);
    } else {
      var a := file.attrs[k - 1];
      FileSets(env, |values|, file, k - 1);
      if Fires(matches, file, a) {
        var mid := FillStates(env, values, a.state, |a.state|);
        FoundByRule(env, values, a.state);
        SameLength(values, mid);
        FileAmounts(env, matches, mid, file, k - 1);
        FoundThen(env, values, mid, FillFile(env, matches, mid, file, k - 1), StatesOf(a.state),
          FileStates(matches, file, k - 1));
      } else {
        FileAmounts(env, matches, values, file, k - 1);
        assert {} + FileStates(matches, file, k - 1) == FileStates(matches, file, k - 1);
      }
    }
  }

  lemma SameLength(before: seq<AttrValue>, after: seq<AttrValue>)
    requires Refines(before, after)
    ensures |after| == |before|
  {}

  /** All rules together: what the whole collection finds. */
  lemma {:induction false} StackAmounts(env: Env, matches: (string, string) -> bool, values: seq<AttrValue>, i: nat)
    requires env.Valid(|values|) && i <= |env.stack|
    ensures Found(env, values, FillStack(env, matches, values, i), StackStates(env, matches, i))
    decreases |env.stack| - i
  {
    hide Found, Refines, FillFile, FileStates;
    if i == |env.stack| {
      FoundNothing(env, values);
    } else {
      var mid := FillFile(env, matches, values, env.stack[i], |env.stack[i].attrs|);
      FileAmounts(env, matches, values, env.stack[i], |env.stack[i].attrs|);
      SameLength(values, mid);
      StackAmounts(env, matches, mid, i + 1);
      FoundThen(env, values, mid, FillStack(env, matches, mid, i + 1),
        FileStates(matches, env.stack[i], |env.stack[i].attrs|), StackStates(env, matches, i + 1));
    }
  }

  // ---- Precedence ---------------------------------------------------------------------------

  /** `a` stands in no macro. */
  ghost predicate InNoMacro(env: Env, a: nat) {
    forall nr: nat {:trigger Macro(env.stack, nr)} :: Macro(env.stack, nr).Some? ==>
      forall s :: s in Macro(env.stack, nr).value.state ==> s.attr != a
  }

  /** What the last of the first `k` states about `a` says. */
  function LastSaid(state: seq<AttrState>, k: nat, a: nat): AttrValue
    requires k <= |state|
  {
    if k == 0 then Unknown
    else if state[k - 1].attr == a then state[k - 1].setto
    else LastSaid(state, k - 1, a)
  }

  function FirstKnown(v: AttrValue, w: AttrValue): AttrValue {
    if v != Unknown then v else w
  }

  /** What the last of the first `k` rules of a file says that matches and speaks of `a`. */
  function FileSaid(matches: (string, string) -> bool, file: AttrFile, k: nat, a: nat): AttrValue
    requires k <= |file.attrs|
  {
    if k == 0 then Unknown
    else
      var rule := file.attrs[k - 1];
      FirstKnown(if Fires(matches, file, rule) then LastSaid(rule.state, |rule.state|, a) else Unknown,
        FileSaid(matches, file, k - 1, a))
  }

  /** What the topmost file from the i-th down says that speaks of `a`. */
  function StackSaid(env: Env, matches: (string, string) -> bool, i: nat, a: nat): AttrValue
    requires i <= |env.stack|
    decreases |env.stack| - i
  {
    if i == |env.stack| then Unknown
    else FirstKnown(FileSaid(matches, env.stack[i], |env.stack[i].attrs|, a), StackSaid(env, matches, i + 1, a))
  }

  lemma {:induction false} StatesPrecede(env: Env, values: seq<AttrValue>, state: seq<AttrState>, k: nat, a: nat)
    requires env.Valid(|values|) && Sets(state, |values|) && k <= |state| && a < |values| && InNoMacro(env, a)
    ensures FillStates(env, values, state, k)[a] == FirstKnown(values[a], LastSaid(state, k, a))
    decreases Unknowns(values), 1, k
  {
    if k > 0 {
      var s := state[k - 1];
      if values[s.attr] != Unknown {
        StatesPrecede(env, values, state, k - 1, a);
      } else {
        var now := values[s.attr := s.setto];
        UnknownsSet(values, s.attr, s.setto);
        var next := Expand(env, now, s.attr);
        RefinesUnknowns(now, next);
        MacroSilent(env, now, s.attr, a);
        StatesPrecede(env, next, state, k - 1, a);
      }
    }
  }

  lemma {:induction false} NeverSaid(state: seq<AttrState>, k: nat, a: nat)
    requires k <= |state| && forall s :: s in state ==> s.attr != a
    ensures LastSaid(state, k, a) == Unknown
  {
    if k > 0 {
      assert state[k - 1] in state;
      NeverSaid(state, k - 1, a);
    }
  }

  /** Expanding a macro says nothing of an attribute that stands in none. */
  lemma {:induction false} MacroSilent(env: Env, values: seq<AttrValue>, nr: nat, a: nat)
    requires env.Valid(|values|) && nr < |values| && a < |values| && InNoMacro(env, a)
    ensures Expand(env, values, nr)[a] == values[a]
    decreases Unknowns(values), 2
  {
    if values[nr] == True && env.maybeMacro[nr] && Macro(env.stack, nr).Some? {
      MacroSets(env.stack, env.maybeMacro, |values|, nr);
      var m := Macro(env.stack, nr).value;
      StatesPrecede(env, values, m.state, |m.state|, a);
      NeverSaid(m.state, |m.state|, a);
    }
  }

  lemma {:induction false} FilePrecedes(env: Env, matches: (string, string) -> bool, values: seq<AttrValue>,
      file: AttrFile, k: nat, a: nat)
    requires env.Valid(|values|) && file in env.stack && k <= |file.attrs| && a < |values| && InNoMacro(env, a)
    ensures FillFile(env, matches, values, file, k)[a] == FirstKnown(values[a], FileSaid(matches, file, k, a))
    decreases k
  {
    hide FillStates, InNoMacro;
    if k > 0 {
      var rule := file.attrs[k - 1];
      FileSets(env, |values|, file, k - 1);
      if Fires(matches, file, rule) {
        StatesPrecede(env, values, rule.state, |rule.state|, a);
        FilePrecedes(env, matches, FillStates(env, values, rule.state, |rule.state|), file, k - 1, a);
      } else {
        FilePrecedes(env, matches, values, file, k - 1, a);
      }
    }
  }

  /**
   * An attribute that stands in no macro gets what the topmost file says that speaks of it, in the last
   * rule there that matches and does so, and nothing if no rule does.
   */
  lemma {:induction false} StackPrecedes(env: Env, matches: (string, string) -> bool, values: seq<AttrValue>, i: nat,
      a: nat)
    requires env.Valid(|values|) && i <= |env.stack| && a < |values| && InNoMacro(env, a)
    ensures FillStack(env, matches, values, i)[a] == FirstKnown(values[a], StackSaid(env, matches, i, a))
    decreases |env.stack| - i
  {
    hide FillFile, InNoMacro;
    if i < |env.stack| {
      FilePrecedes(env, matches, values, env.stack[i], |env.stack[i].attrs|, a);
      StackPrecedes(env, matches, FillFile(env, matches, values, env.stack[i], |env.stack[i].attrs|), i + 1, a);
    }
  }

  // ---- Rules as one text --------------------------------------------------------------------

  /** One state taken in. */
  ghost function Took(env: Env, values: seq<AttrValue>, s: AttrState): (r: seq<AttrValue>)
    requires env.Valid(|values|) && s.attr < |values| && s.setto != Unknown
    ensures |r| == |values| && Unknowns(r) <= Unknowns(values)
  {
    if values[s.attr] != Unknown then values
    else
      UnknownsSet(values, s.attr, s.setto);
      RefinesUnknowns(values[s.attr := s.setto], Expand(env, values[s.attr := s.setto], s.attr));
      Expand(env, values[s.attr := s.setto], s.attr)
  }

  lemma FillsStep(env: Env, values: seq<AttrValue>, S: seq<AttrState>, k: nat)
    requires env.Valid(|values|) && Sets(S, |values|) && k <= |S|
    ensures k == 0 ==> FillStates(env, values, S, k) == values
    ensures k > 0 ==>
      && S[k - 1].attr < |values| && S[k - 1].setto != Unknown
      && FillStates(env, values, S, k) == FillStates(env, Took(env, values, S[k - 1]), S, k - 1)
  {
    hide Expand;
  }

  lemma {:induction false} FillsPrefix(env: Env, values: seq<AttrValue>, S: seq<AttrState>, T: seq<AttrState>, k: nat)
    requires env.Valid(|values|) && Sets(S, |values|) && Sets(T, |values|)
    requires k <= |S| && k <= |T| && S[..k] == T[..k]
    ensures FillStates(env, values, S, k) == FillStates(env, values, T, k)
    decreases k
  {
    hide *;
    FillsStep(env, values, S, k);
    FillsStep(env, values, T, k);
    if k > 0 {
      assert S[k - 1] == S[..k][k - 1] == T[k - 1] && S[..k - 1] == S[..k][..k - 1] == T[..k - 1];
      FillsPrefix(env, Took(env, values, S[k - 1]), S, T, k - 1);
    }
  }

  lemma SetsBoth(A: seq<AttrState>, B: seq<AttrState>, n: nat)
    requires Sets(A, n) && Sets(B, n)
    ensures Sets(A + B, n)
  {}

  /** Of states one behind the other those behind come first. */
  lemma {:induction false} FillsConcat(env: Env, values: seq<AttrValue>, A: seq<AttrState>, B: seq<AttrState>, k: nat)
    requires env.Valid(|values|) && Sets(A, |values|) && Sets(B, |values|) && k <= |B|
    ensures Sets(A + B, |values|)
    ensures FillStates(env, values, A + B, |A| + k) == FillStates(env, FillStates(env, values, B, k), A, |A|)
    decreases k
  {
    hide *;
    SetsBoth(A, B, |values|);
    FillsStep(env, values, B, k);
    if k == 0 {
      assert (A + B)[..|A|] == A[..|A|];
      FillsPrefix(env, values, A + B, A, |A|);
    } else {
      FillsStep(env, values, A + B, |A| + k);
      assert (A + B)[|A| + k - 1] == B[k - 1];
      FillsConcat(env, Took(env, values, B[k - 1]), A, B, k - 1);
    }
  }

  /** Setting a macro to true is the same as writing the states of its definition in its place. */
  lemma MacroIsText(env: Env, values: seq<AttrValue>, A: seq<AttrState>, nr: nat, i: nat, j: nat)
    requires env.Valid(|values|) && Sets(A, |values|) && nr < |values| && values[nr] == Unknown
    requires env.maybeMacro[nr] && Definition(env.stack, nr, i, j)
    ensures Sets(A + [AttrState(nr, True)], |values|) && Sets(A + env.stack[i].attrs[j].state, |values|)
    ensures FillStates(env, values, A + [AttrState(nr, True)], |A| + 1) ==
      FillStates(env, values[nr := True], A + env.stack[i].attrs[j].state, |A + env.stack[i].attrs[j].state|)
  {
    hide *;
    DefinitionThere(env.stack, nr, i, j);
    var m, one, now := env.stack[i].attrs[j].state, [AttrState(nr, True)], values[nr := True];
    DefinitionIsMacro(env.stack, nr, i, j);
    MacroSets(env.stack, env.maybeMacro, |values|, nr);
    OneTrue(env, values, nr, m);
    FillsConcat(env, values, A, one, 1);
    FillsConcat(env, now, A, m, |m|);
  }

  lemma DefinitionThere(stack: seq<AttrFile>, nr: nat, i: nat, j: nat)
    requires Definition(stack, nr, i, j)
    ensures i < |stack| && j < |stack[i].attrs|
  {}

  lemma OneTrue(env: Env, values: seq<AttrValue>, nr: nat, m: seq<AttrState>)
    requires env.Valid(|values|) && nr < |values| && values[nr] == Unknown && Sets(m, |values|)
    requires env.maybeMacro[nr] && Macro(env.stack, nr).Some? && Macro(env.stack, nr).value.state == m
    ensures Sets([AttrState(nr, True)], |values|)
    ensures FillStates(env, values, [AttrState(nr, True)], 1) == FillStates(env, values[nr := True], m, |m|)
  {
    var one, now := [AttrState(nr, True)], values[nr := True];
    UnknownsSet(values, nr, True);
    var next := Expand(env, now, nr);
    RefinesUnknowns(now, next);
    assert FillStates(env, next, one, 0) == next;
    hide Macro, Env.Valid;
  }

  /** The states of the first `k` rules of a file that match and are no macros, one rule behind the other. */
  function FileText(matches: (string, string) -> bool, file: AttrFile, k: nat): seq<AttrState>
    requires k <= |file.attrs|
  {
    if k == 0 then []
    else
      var a := file.attrs[k - 1];
      FileText(matches, file, k - 1) + if !a.isMacro && matches(file.origin, a.pattern) then a.state else []
  }

  /** Those of all files from the i-th down, the lowest file in front. */
  function StackText(env: Env, matches: (string, string) -> bool, i: nat): seq<AttrState>
    requires i <= |env.stack|
    decreases |env.stack| - i
  {
    if i == |env.stack| then []
    else StackText(env, matches, i + 1) + FileText(matches, env.stack[i], |env.stack[i].attrs|)
  }

  lemma {:induction false} FileIsText(env: Env, matches: (string, string) -> bool, values: seq<AttrValue>,
      file: AttrFile, k: nat)
    requires env.Valid(|values|) && file in env.stack && k <= |file.attrs|
    ensures var t := FileText(matches, file, k);
      Sets(t, |values|) && FillFile(env, matches, values, file, k) == FillStates(env, values, t, |t|)
    decreases k
  {
    hide FillStates, Env.Valid;
    if k == 0 {
      NoStates(env, values);
    } else {
      var a := file.attrs[k - 1];
      FileSets(env, |values|, file, k - 1);
      if !a.isMacro && matches(file.origin, a.pattern) {
        var next := FillStates(env, values, a.state, |a.state|);
        FileIsText(env, matches, next, file, k - 1);
        FillsConcat(env, values, FileText(matches, file, k - 1), a.state, |a.state|);
      } else {
        FileIsText(env, matches, values, file, k - 1);
        Unit(FileText(matches, file, k - 1));
      }
    }
  }

  lemma NoStates(env: Env, values: seq<AttrValue>)
    requires env.Valid(|values|)
    ensures FillStates(env, values, [], 0) == values
  {}

  /** The whole stack is as good as one rule with all states that apply. */
  lemma {:induction false} StackIsText(env: Env, matches: (string, string) -> bool, values: seq<AttrValue>, i: nat)
    requires env.Valid(|values|) && i <= |env.stack|
    ensures var t := StackText(env, matches, i);
      Sets(t, |values|) && FillStack(env, matches, values, i) == FillStates(env, values, t, |t|)
    decreases |env.stack| - i
  {
    hide FillStates, FillFile, FileText;
    if i == |env.stack| {
      NoStates(env, values);
    } else {
      var file := env.stack[i];
      var t := FileText(matches, file, |file.attrs|);
      FileIsText(env, matches, values, file, |file.attrs|);
      StackIsText(env, matches, FillStates(env, values, t, |t|), i + 1);
      FillsConcat(env, values, StackText(env, matches, i + 1), t, |t|);
    }
  }

  // ---- By place -----------------------------------------------------------------------------

  /** The j-th rule of the i-th file is about the path. */
  ghost predicate FiresAt(stack: seq<AttrFile>, matches: (string, string) -> bool, i: nat, j: nat) {
    && i < |stack| && j < |stack[i].attrs|
    && !stack[i].attrs[j].isMacro && matches(stack[i].origin, stack[i].attrs[j].pattern)
  }

  /** The j-th rule of the i-th file is the definition of a macro that is true. */
  ghost predicate TrueMacroAt(env: Env, values: seq<AttrValue>, i: nat, j: nat) {
    && i < |env.stack| && j < |env.stack[i].attrs|
    && env.stack[i].attrs[j].attr < |values| == |env.maybeMacro|
    && values[env.stack[i].attrs[j].attr] == True && env.maybeMacro[env.stack[i].attrs[j].attr]
    && Definition(env.stack, env.stack[i].attrs[j].attr, i, j)
  }

  /** The k-th state of a rule says something of `a`. */
  ghost predicate Speaks(stack: seq<AttrFile>, i: nat, j: nat, k: nat, a: nat) {
    && i < |stack| && j < |stack[i].attrs| && k < |stack[i].attrs[j].state|
    && stack[i].attrs[j].state[k].attr == a
  }

  /**
   * An attribute has a value exactly if a rule that is about the path, or the definition of a macro that
   * is true, speaks of it; and the value is what one of them says.
   */
  ghost predicate Explained(env: Env, matches: (string, string) -> bool, values: seq<AttrValue>) {
    && (forall i: nat, j: nat, k: nat, a: nat ::
          a < |values| && Speaks(env.stack, i, j, k, a) && Applies(env, matches, values, i, j) ==> values[a] != Unknown)
    && (forall a: nat {:trigger values[a]} ::
          a < |values| && values[a] != Unknown ==> SaidSomewhere(env, matches, values, a))
  }

  ghost predicate Applies(env: Env, matches: (string, string) -> bool, values: seq<AttrValue>, i: nat, j: nat) {
    FiresAt(env.stack, matches, i, j) || TrueMacroAt(env, values, i, j)
  }

  ghost predicate SaidSomewhere(env: Env, matches: (string, string) -> bool, values: seq<AttrValue>, a: nat)
    requires a < |values|
  {
    exists i: nat, j: nat, k: nat ::
      && Speaks(env.stack, i, j, k, a) && Applies(env, matches, values, i, j)
      && env.stack[i].attrs[j].state[k].setto == values[a]
  }

  lemma {:induction false} FileStatesAre(matches: (string, string) -> bool, file: AttrFile, k: nat, s: AttrState)
    requires k <= |file.attrs|
    ensures s in FileStates(matches, file, k) <==>
      exists j: nat :: j < k && !file.attrs[j].isMacro && matches(file.origin, file.attrs[j].pattern) &&
        s in file.attrs[j].state
  {
    if k > 0 {
      FileStatesAre(matches, file, k - 1, s);
    }
  }

  lemma {:induction false} StackStatesAre(env: Env, matches: (string, string) -> bool, i: nat, s: AttrState)
    requires i <= |env.stack|
    ensures s in StackStates(env, matches, i) <==>
      exists f: nat, j: nat :: i <= f && FiresAt(env.stack, matches, f, j) && s in env.stack[f].attrs[j].state
    decreases |env.stack| - i
  {
    if i < |env.stack| {
      StackStatesAre(env, matches, i + 1, s);
      FileStatesAre(matches, env.stack[i], |env.stack[i].attrs|, s);
      if s in FileStates(matches, env.stack[i], |env.stack[i].attrs|) {
        var j: nat :| j < |env.stack[i].attrs| && !env.stack[i].attrs[j].isMacro &&
          matches(env.stack[i].origin, env.stack[i].attrs[j].pattern) && s in env.stack[i].attrs[j].state;
        assert FiresAt(env.stack, matches, i, j);
      }
    }
  }

  lemma FoundIsExplained(env: Env, matches: (string, string) -> bool, before: seq<AttrValue>, values: seq<AttrValue>)
    requires |before| == |env.maybeMacro| && forall a {:trigger before[a]} :: 0 <= a < |before| ==> before[a] == Unknown
    requires Found(env, before, values, StackStates(env, matches, 0))
    ensures Explained(env, matches, values)
  {
    hide StackStates, Macro;
    forall i: nat, j: nat, k: nat, a: nat |
      a < |values| && Speaks(env.stack, i, j, k, a) && Applies(env, matches, values, i, j)
      ensures values[a] != Unknown
    {
      var s := env.stack[i].attrs[j].state[k];
      if FiresAt(env.stack, matches, i, j) {
        StackStatesAre(env, matches, 0, s);
        assert s in StackStates(env, matches, 0);
      } else {
        var nr := env.stack[i].attrs[j].attr;
        DefinitionIsMacro(env.stack, nr, i, j);
        assert Expanded(env, before, values, nr);
      }
    }
    forall a: nat | a < |values| && values[a] != Unknown
      ensures SaidSomewhere(env, matches, values, a)
    {
      ExplainedAt(env, matches, before, values, a);
    }
  }

  lemma ExplainedAt(env: Env, matches: (string, string) -> bool, before: seq<AttrValue>, values: seq<AttrValue>, a: nat)
    requires a < |values| == |before| == |env.maybeMacro| && values[a] != Unknown
    requires AttrState(a, values[a]) in StackStates(env, matches, 0) || FromMacro(env, before, values, a)
    ensures SaidSomewhere(env, matches, values, a)
  {
    hide StackStates, Macro;
    var s := AttrState(a, values[a]);
    if s in StackStates(env, matches, 0) {
      StackStatesAre(env, matches, 0, s);
      var i: nat, j: nat :| 0 <= i && FiresAt(env.stack, matches, i, j) && s in env.stack[i].attrs[j].state;
      var k :| 0 <= k < |env.stack[i].attrs[j].state| && env.stack[i].attrs[j].state[k] == s;
      assert Speaks(env.stack, i, j, k, a) && Applies(env, matches, values, i, j);
    } else {
      var nr: nat :| Expanded(env, before, values, nr) && s in Macro(env.stack, nr).value.state;
      var i, j := MacroIs(env.stack, nr);
      var k :| 0 <= k < |env.stack[i].attrs[j].state| && env.stack[i].attrs[j].state[k] == s;
      assert Applies(env, matches, values, i, j) && Speaks(env.stack, i, j, k, a);
    }
  }

  /** No definition of a macro that counts speaks of `a`. */
  ghost predicate InNoDefinition(stack: seq<AttrFile>, a: nat) {
    forall i: nat, j: nat, k: nat, nr: nat :: Definition(stack, nr, i, j) ==> !Speaks(stack, i, j, k, a)
  }

  /** What is said there comes before what is said here: in a file above, a later rule, or a later state. */
  predicate Above(f: nat, g: nat, h: nat, i: nat, j: nat, k: nat) {
    f < i || (f == i && (g > j || (g == j && h > k)))
  }

  /** Of the rules about the path, what is said there decides on `a`. */
  ghost predicate Decides(stack: seq<AttrFile>, matches: (string, string) -> bool, i: nat, j: nat, k: nat, a: nat) {
    && Speaks(stack, i, j, k, a) && FiresAt(stack, matches, i, j)
    && forall f: nat, g: nat, h: nat :: Speaks(stack, f, g, h, a) && FiresAt(stack, matches, f, g) ==>
         !Above(f, g, h, i, j, k)
  }

  lemma InNoDefinitionMacro(env: Env, a: nat)
    requires InNoDefinition(env.stack, a)
    ensures InNoMacro(env, a)
  {
    forall nr: nat, s | Macro(env.stack, nr).Some? && s in Macro(env.stack, nr).value.state ensures s.attr != a {
      var i, j := MacroIs(env.stack, nr);
      var k :| 0 <= k < |env.stack[i].attrs[j].state| && env.stack[i].attrs[j].state[k] == s;
      assert !Speaks(env.stack, i, j, k, a);
    }
  }

  lemma {:induction false} LastSaidIs(state: seq<AttrState>, n: nat, k: nat, a: nat) returns (h: nat)
    requires k <= |state| && Sets(state, n)
    ensures LastSaid(state, k, a) == Unknown ==> forall m :: 0 <= m < k ==> state[m].attr != a
    ensures LastSaid(state, k, a) != Unknown ==>
      && h < k && state[h] == AttrState(a, LastSaid(state, k, a)) && forall m :: h < m < k ==> state[m].attr != a
  {
    if k > 0 && state[k - 1].attr != a {
      h := LastSaidIs(state, n, k - 1, a);
    } else {
      h := if k > 0 then k - 1 else 0;
    }
  }

  /** What the first `k` rules of the i-th file say of `a` is said in the last place where they do. */
  lemma {:induction false} FileSaidIs(env: Env, n: nat, matches: (string, string) -> bool, i: nat, k: nat, a: nat)
    returns (g: nat, h: nat)
    requires env.Valid(n) && i < |env.stack| && k <= |env.stack[i].attrs|
    ensures FileSaid(matches, env.stack[i], k, a) == Unknown ==>
      forall m: nat, l: nat :: m < k && Speaks(env.stack, i, m, l, a) ==> !FiresAt(env.stack, matches, i, m)
    ensures FileSaid(matches, env.stack[i], k, a) != Unknown ==>
      && g < k && Speaks(env.stack, i, g, h, a) && FiresAt(env.stack, matches, i, g)
      && env.stack[i].attrs[g].state[h].setto == FileSaid(matches, env.stack[i], k, a)
      && forall m: nat, l: nat :: m < k && Speaks(env.stack, i, m, l, a) && FiresAt(env.stack, matches, i, m) ==>
           m < g || (m == g && l <= h)
  {
    g, h := 0, 0;
    if k > 0 {
      var file := env.stack[i];
      var rule := file.attrs[k - 1];
      FileSets(env, n, file, k - 1);
      h := LastSaidIs(rule.state, n, |rule.state|, a);
      if Fires(matches, file, rule) && LastSaid(rule.state, |rule.state|, a) != Unknown {
        g := k - 1;
      } else {
        g, h := FileSaidIs(env, n, matches, i, k - 1, a);
      }
    }
  }

  /** What the files from the i-th down say of `a` decides, if they say anything. */
  lemma {:induction false} StackSaidIs(env: Env, n: nat, matches: (string, string) -> bool, i: nat, a: nat)
    returns (f: nat, g: nat, h: nat)
    requires env.Valid(n) && i <= |env.stack|
    ensures StackSaid(env, matches, i, a) == Unknown ==>
      forall l: nat, m: nat, o: nat :: i <= l && Speaks(env.stack, l, m, o, a) ==> !FiresAt(env.stack, matches, l, m)
    ensures StackSaid(env, matches, i, a) != Unknown ==>
      && i <= f && Speaks(env.stack, f, g, h, a) && FiresAt(env.stack, matches, f, g)
      && env.stack[f].attrs[g].state[h].setto == StackSaid(env, matches, i, a)
      && forall l: nat, m: nat, o: nat ::
           i <= l && Speaks(env.stack, l, m, o, a) && FiresAt(env.stack, matches, l, m) ==>
           !Above(l, m, o, f, g, h)
    decreases |env.stack| - i
  {
    hide FileSaid;
    f, g, h := 0, 0, 0;
    if i < |env.stack| {
      g, h := FileSaidIs(env, n, matches, i, |env.stack[i].attrs|, a);
      if FileSaid(matches, env.stack[i], |env.stack[i].attrs|, a) != Unknown {
        f := i;
      } else {
        f, g, h := StackSaidIs(env, n, matches, i + 1, a);
      }
    }
  }

  /** The value that the rules about the path decide on, if they speak of `a`. */
  ghost predicate Decided(env: Env, matches: (string, string) -> bool, a: nat, v: AttrValue) {
    if v == Unknown then
      forall i: nat, j: nat, k: nat :: Speaks(env.stack, i, j, k, a) ==> !FiresAt(env.stack, matches, i, j)
    else
      exists i: nat, j: nat, k: nat ::
        Decides(env.stack, matches, i, j, k, a) && env.stack[i].attrs[j].state[k].setto == v
  }

  lemma SaidIsDecided(env: Env, n: nat, matches: (string, string) -> bool, a: nat)
    requires env.Valid(n)
    ensures Decided(env, matches, a, StackSaid(env, matches, 0, a))
  {
    hide StackSaid;
    var i, j, k := StackSaidIs(env, n, matches, 0, a);
    if StackSaid(env, matches, 0, a) != Unknown {
      assert Decides(env.stack, matches, i, j, k, a);
    }
  }

  /** What the collection of all files gives. */
  lemma CollectionIs(env: Env, matches: (string, string) -> bool, start: seq<AttrValue>, values: seq<AttrValue>)
    requires env.Valid(|start|) && start == seq(|start|, _ => Unknown)
    requires values == FillStack(env, matches, start, 0)
    ensures var text := StackText(env, matches, 0);
      Sets(text, |start|) && values == FillStates(env, start, text, |text|)
    ensures |values| == |start| && Explained(env, matches, values)
    ensures forall a: nat :: a < |values| && InNoDefinition(env.stack, a) ==> Decided(env, matches, a, values[a])
  {
    assert forall a {:trigger start[a]} :: 0 <= a < |start| ==> start[a] == Unknown;
    hide FillStates, FillStack, Found, Explained, InNoMacro, InNoDefinition, Decided, StackText, StackStates,
      StackSaid, Sets;
    StackIsText(env, matches, start, 0);
    StackAmounts(env, matches, start, 0);
    FoundIsExplained(env, matches, start, values);
    SameLength(start, values);
    forall a: nat | a < |values| && InNoDefinition(env.stack, a) ensures Decided(env, matches, a, values[a]) {
      InNoDefinitionMacro(env, a);
      StackPrecedes(env, matches, start, 0, a);
      SaidIsDecided(env, |start|, matches, a);
    }
  }

  // ---- The collection itself ----------------------------------------------------------------

  /** `rem` bounds the unknown attributes, and went down by one for each that became known. */
  ghost predicate Accounts(before: seq<AttrValue>, rem0: int, after: seq<AttrValue>, rem: int) {
    |after| == |before| && rem0 - rem == Unknowns(before) - Unknowns(after) && rem >= Unknowns(after)
  }

  class AttrCheck {
    /** check_all_attr, the values by attribute number. */
    const value: array<AttrValue>

    constructor (attrNr: nat)
      ensures fresh(value) && value.Length == attrNr
    {
      value := new AttrValue[attrNr](_ => Unknown);
    }

    /** fill_one; it stops early when `rem` says that all is known. */
    method FillOne(env: Env, state: seq<AttrState>, rem0: int) returns (rem: int)
      requires env.Valid(value.Length) && Sets(state, value.Length) && rem0 >= Unknowns(value[..])
      modifies value
      ensures value[..] == FillStates(env, old(value[..]), state, |state|)
      ensures Accounts(old(value[..]), rem0, value[..], rem)
      decreases Unknowns(value[..]), 3
    {
      rem := rem0;
      var k := |state|;
      while 0 < rem && 0 < k
        invariant 0 <= k <= |state| && Accounts(old(value[..]), rem0, value[..], rem)
        invariant FillStates(env, value[..], state, k) == FillStates(env, old(value[..]), state, |state|)
        invariant Refines(old(value[..]), value[..])
        decreases k
      {
        k := k - 1;
        var attr, v := state[k].attr, state[k].setto;
        if value[attr] == Unknown {
          ghost var was := value[..];
          UnknownsSet(was, attr, v);
          RefinesUnknowns(old(value[..]), was);
          value[attr] := v;
          assert value[..] == was[attr := v];
          rem := rem - 1;
          rem := MacroexpandOne(env, attr, rem);
        }
      }
      if k > 0 {
        AllKnown(value[..], FillStates(env, value[..], state, k));
      }
    }

    /** macroexpand_one. */
    method MacroexpandOne(env: Env, nr: nat, rem0: int) returns (rem: int)
      requires env.Valid(value.Length) && nr < value.Length && rem0 >= Unknowns(value[..])
      modifies value
      ensures value[..] == Expand(env, old(value[..]), nr)
      ensures Accounts(old(value[..]), rem0, value[..], rem)
      decreases Unknowns(value[..]), 4
    {
      if value[nr] != True || !env.maybeMacro[nr] {
        return rem0;
      }
      var a := FindMacro(env, nr);
      MacroSets(env.stack, env.maybeMacro, value.Length, nr);
      rem := rem0;
      if a.Some? {
        rem := FillOne(env, a.value.state, rem);
      }
    }

    /** The search for a macro's definition: files from the top, rules from the last. */
    method FindMacro(env: Env, nr: nat) returns (a: Option<MatchAttr>)
      ensures a == Macro(env.stack, nr)
    {
      a := None;
      var s := 0;
      assert env.stack[0..] == env.stack;
      while a.None? && s < |env.stack|
        invariant 0 <= s <= |env.stack| && Macro(env.stack, nr) == if a.Some? then a else Macro(env.stack[s..], nr)
        decreases |env.stack| - s
      {
        var attrs := env.stack[s].attrs;
        var i := |attrs|;
        assert attrs[..i] == attrs;
        while a.None? && 0 < i
          invariant 0 <= i <= |attrs| && MacroInFile(attrs, nr) == if a.Some? then a else MacroInFile(attrs[..i], nr)
          decreases i
        {
          assert attrs[..i][..i - 1] == attrs[..i - 1];
          i := i - 1;
          if attrs[i].isMacro && attrs[i].attr == nr {
            a := Some(attrs[i]);
          }
        }
        assert env.stack[s..][1..] == env.stack[s + 1..];
        s := s + 1;
      }
    }

    /** fill: the rules of one file. */
    method Fill(env: Env, matches: (string, string) -> bool, file: AttrFile, rem0: int) returns (rem: int)
      requires env.Valid(value.Length) && file in env.stack && rem0 >= Unknowns(value[..])
      modifies value
      ensures value[..] == FillFile(env, matches, old(value[..]), file, |file.attrs|)
      ensures Accounts(old(value[..]), rem0, value[..], rem)
    {
      rem := rem0;
      var i := |file.attrs|;
      while 0 < rem && 0 < i
        invariant 0 <= i <= |file.attrs| && Accounts(old(value[..]), rem0, value[..], rem)
        invariant FillFile(env, matches, value[..], file, i) ==
          FillFile(env, matches, old(value[..]), file, |file.attrs|)
        decreases i
      {
        i := i - 1;
        var a := file.attrs[i];
        if !a.isMacro && matches(file.origin, a.pattern) {
          FileSets(env, value.Length, file, i);
          rem := FillOne(env, a.state, rem);
        }
      }
      if i > 0 {
        AllKnown(value[..], FillFile(env, matches, value[..], file, i));
      }
    }

    /**
     * collect_some_attrs, for all attributes: the same values as a collection that never stops early.
     * An attribute has a value exactly if a rule about the path or a macro that is true speaks of it, and
     * the value is what one of them says; if no macro does, the topmost file, there the last rule, and
     * there the last state decides.
     */
    method CollectSomeAttrs(env: Env, matches: (string, string) -> bool) returns (rem: int)
      requires env.Valid(value.Length)
      modifies value
      ensures value[..] == FillStack(env, matches, seq(value.Length, _ => Unknown), 0)
      ensures rem == Unknowns(value[..])
      ensures var text := StackText(env, matches, 0);
        && Sets(text, value.Length)
        && value[..] == FillStates(env, seq(value.Length, _ => Unknown), text, |text|)
      ensures Explained(env, matches, value[..])
      ensures forall a: nat :: a < value.Length && InNoDefinition(env.stack, a) ==> Decided(env, matches, a, value[a])
    {
      var i := 0;
      while i < value.Length
        invariant 0 <= i <= value.Length && forall j :: 0 <= j < i ==> value[j] == Unknown
      {
        value[i] := Unknown;
        i := i + 1;
      }
      ghost var start := value[..];
      assert start == seq(value.Length, _ => Unknown);
      AllUnknown(start);
      rem := value.Length;
      var s := 0;
      while 0 < rem && s < |env.stack|
        invariant 0 <= s <= |env.stack| && Accounts(start, value.Length, value[..], rem)
        invariant FillStack(env, matches, value[..], s) == FillStack(env, matches, start, 0)
        decreases |env.stack| - s
      {
        rem := Fill(env, matches, env.stack[s], rem);
        s := s + 1;
      }
      if s < |env.stack| {
        AllKnown(value[..], FillStack(env, matches, value[..], s));
      }
      CollectionIs(env, matches, start, value[..]);
      assert forall a: nat :: a < value.Length ==> value[a] == value[..][a];
    }
  }
}
