/** Plain greedy decoding of a target model, in exact arithmetic. */
module Decoding {
  import opened StateReplay

  /** A key/value or hidden row. */
  datatype Vector = Vector(entries: seq<real>)

  /** What attention and recurrence have seen: one key/value row per token, and the running states. */
  datatype Logical = Logical(kvs: seq<Vector>, states: seq<State>)

  /**
   A target model. Each token's row, states, hidden row and greedy choice depend only on what came
   before it and on the token, so a chunk computes what its tokens compute one by one. `updates` is
   what a capture records of the token.
   */
  datatype Target = Target(
    geometries: seq<Geometry>,
    capacity: nat,
    row: (Logical, nat) -> Vector,
    step: (Logical, nat) -> seq<State>,
    updates: (Logical, nat) -> seq<Update>,
    hidden: (Logical, nat) -> Vector,
    choose: (Logical, nat) -> nat)
  {
    /** The states step by the captured updates. */
    ghost predicate Valid() {
      && capacity > 0
      && (forall i {:trigger geometries[i]} :: 0 <= i < |geometries| ==> geometries[i].Valid())
      && (forall l: Logical, token: nat {:trigger step(l, token)} ::
            StatesFit(geometries, l.states) ==> StatesFit(geometries, step(l, token)))
      && (forall l: Logical, token: nat {:trigger updates(l, token)} ::
            StatesFit(geometries, l.states) ==>
              UpdatesFit(geometries, updates(l, token))
              && step(l, token) == StepStates(geometries, l.states, updates(l, token)))
    }
  }

  predicate UpdatesFit(gs: seq<Geometry>, us: seq<Update>) {
    |us| == |gs| && forall i {:trigger UpdateFitsAt(gs, us, i)} :: 0 <= i < |gs| ==> UpdateFitsAt(gs, us, i)
  }

  predicate UpdateFitsAt(gs: seq<Geometry>, us: seq<Update>, i: nat)
    requires i < |gs| == |us|
  {
    UpdateFits(gs[i], us[i])
  }

  predicate StatesFit(gs: seq<Geometry>, ss: seq<State>) {
    |ss| == |gs| && forall i {:trigger StateFitsAt(gs, ss, i)} :: 0 <= i < |gs| ==> StateFitsAt(gs, ss, i)
  }

  predicate StateFitsAt(gs: seq<Geometry>, ss: seq<State>, i: nat)
    requires i < |gs| == |ss|
  {
    StateFits(gs[i], ss[i])
  }

  function ZeroState(g: Geometry): (s: State)
    ensures StateFits(g, s)
  {
    match g
    case Recurrent(heads, _, values, keys) => Matrix(seq(heads, _ => seq(values, _ => Zeros(keys))))
    case Conv(channels, width) => Window(seq(channels, _ => Zeros(width)))
  }

  function ZeroStates(gs: seq<Geometry>): (ss: seq<State>)
    ensures StatesFit(gs, ss)
  {
    seq(|gs|, i requires 0 <= i < |gs| => ZeroState(gs[i]))
  }

  function StepStates(gs: seq<Geometry>, ss: seq<State>, us: seq<Update>): (r: seq<State>)
    requires (forall i {:trigger gs[i]} :: 0 <= i < |gs| ==> gs[i].Valid()) && StatesFit(gs, ss) && UpdatesFit(gs, us)
    ensures StatesFit(gs, r)
  {
    seq(|gs|, i requires 0 <= i < |gs| => StepState(gs, ss, us, i))
  }

  function StepState(gs: seq<Geometry>, ss: seq<State>, us: seq<Update>, i: nat): (r: State)
    requires (forall i {:trigger gs[i]} :: 0 <= i < |gs| ==> gs[i].Valid()) && StatesFit(gs, ss) && UpdatesFit(gs, us)
    requires i < |gs|
    ensures StateFits(gs[i], r)
  {
    assert StateFitsAt(gs, ss, i) && UpdateFitsAt(gs, us, i);
    Stepped(gs[i], ss[i], us[i])
  }

  /** The model state after one more token. */
  ghost function Next(t: Target, l: Logical, token: nat): (r: Logical)
    requires t.Valid() && StatesFit(t.geometries, l.states)
    ensures StatesFit(t.geometries, r.states) && |r.kvs| == |l.kvs| + 1
  {
    Logical(l.kvs + [t.row(l, token)], t.step(l, token))
  }

  ghost function After(t: Target, l: Logical, tokens: seq<nat>): (r: Logical)
    requires t.Valid() && StatesFit(t.geometries, l.states)
    ensures StatesFit(t.geometries, r.states) && |r.kvs| == |l.kvs| + |tokens|
  {
    if tokens == [] then l
    else Next(t, After(t, l, tokens[..|tokens| - 1]), tokens[|tokens| - 1])
  }

  ghost function Start(t: Target): (l: Logical) {
    Logical([], ZeroStates(t.geometries))
  }

  /** The state after a whole context. */
  ghost function Reading(t: Target, context: seq<nat>): (r: Logical)
    requires t.Valid()
    ensures StatesFit(t.geometries, r.states) && |r.kvs| == |context|
  {
    After(t, Start(t), context)
  }

  /** The greedy token that follows a context. */
  ghost function NextToken(t: Target, context: seq<nat>): (token: nat)
    requires t.Valid() && context != []
  {
    t.choose(Reading(t, context[..|context| - 1]), context[|context| - 1])
  }

  /** The hidden row of the last token of a context. */
  ghost function LastHidden(t: Target, context: seq<nat>): (row: Vector)
    requires t.Valid() && context != []
  {
    t.hidden(Reading(t, context[..|context| - 1]), context[|context| - 1])
  }

  /** The target's own greedy continuation of a prompt. */
  ghost function Greedy(t: Target, prompt: seq<nat>, n: nat): (tokens: seq<nat>)
    requires t.Valid() && prompt != []
    ensures |tokens| == n
  {
    if n == 0 then []
    else
      var before := Greedy(t, prompt, n - 1);
      before + [NextToken(t, prompt + before)]
  }

  /** The hidden row of position `i` of a chunk run from state `l`. */
  ghost function HiddenRow(t: Target, l: Logical, ids: seq<nat>, i: nat): (row: Vector)
    requires t.Valid() && StatesFit(t.geometries, l.states) && i < |ids|
  {
    t.hidden(After(t, l, ids[..i]), ids[i])
  }

  /** The greedy choice of position `i` of a chunk run from state `l`. */
  ghost function Choice(t: Target, l: Logical, ids: seq<nat>, i: nat): (token: nat)
    requires t.Valid() && StatesFit(t.geometries, l.states) && i < |ids|
  {
    t.choose(After(t, l, ids[..i]), ids[i])
  }

  lemma {:induction false} AfterAppend(t: Target, l: Logical, a: seq<nat>, b: seq<nat>)
    requires t.Valid() && StatesFit(t.geometries, l.states)
    ensures After(t, l, a + b) == After(t, After(t, l, a), b)
  {
    if b == [] {
      assert a + b == a;
    } else {
      assert (a + b)[..|a + b| - 1] == a + b[..|b| - 1];
      AfterAppend(t, l, a, b[..|b| - 1]);
    }
  }

  /** Reading one token further. */
  lemma {:induction false} ReadOne(t: Target, read: seq<nat>, token: nat)
    requires t.Valid()
    ensures Reading(t, read + [token]) == Next(t, Reading(t, read), token)
    ensures NextToken(t, read + [token]) == t.choose(Reading(t, read), token)
    ensures LastHidden(t, read + [token]) == t.hidden(Reading(t, read), token)
  {
    assert (read + [token])[..|read + [token]| - 1] == read;
  }

  lemma {:induction false} GreedyNext(t: Target, prompt: seq<nat>, tokens: seq<nat>)
    requires t.Valid() && prompt != [] && tokens == Greedy(t, prompt, |tokens|)
    ensures tokens + [NextToken(t, prompt + tokens)] == Greedy(t, prompt, |tokens| + 1)
  {
  }

  lemma {:induction false} GreedyPrefix(t: Target, prompt: seq<nat>, m: nat, n: nat)
    requires t.Valid() && prompt != [] && m <= n
    ensures Greedy(t, prompt, n)[..m] == Greedy(t, prompt, m)
  {
    if m < n { GreedyPrefix(t, prompt, m, n - 1); }
  }

  // ---- Where a request begins -------------------------------------------------------------------

  /** Every entry of a state is zero. */
  ghost predicate Zeroed(s: State) {
    match s
    case Matrix(m) =>
      forall h, v, k :: 0 <= h < |m| && 0 <= v < |m[h]| && 0 <= k < |m[h][v]| ==> m[h][v][k] == 0.0
    case Window(w) =>
      forall c, i :: 0 <= c < |w| && 0 <= i < |w[c]| ==> w[c][i] == 0.0
  }

  /** Nothing has been read: no key/value rows, and every entry of every state is zero. */
  ghost predicate Blank(t: Target, l: Logical) {
    l.kvs == [] && StatesFit(t.geometries, l.states) && AllZeroed(l.states)
  }

  ghost predicate AllZeroed(states: seq<State>) {
    forall i {:trigger states[i]} :: 0 <= i < |states| ==> Zeroed(states[i])
  }

  lemma {:induction false} StartIsBlank(t: Target)
    ensures Blank(t, Start(t))
  {
    forall i | 0 <= i < |t.geometries| ensures Zeroed(ZeroStates(t.geometries)[i]) {
      ZeroStateIsZeroed(t.geometries[i]);
    }
  }

  lemma {:induction false} ZeroStateIsZeroed(g: Geometry)
    ensures Zeroed(ZeroState(g))
  {
  }

  lemma {:induction false} ZeroedIsZeroState(g: Geometry, s: State)
    requires StateFits(g, s) && Zeroed(s)
    ensures s == ZeroState(g)
  {
    match g
    case Recurrent(heads, _, values, keys) =>
      forall h | 0 <= h < heads ensures s.m[h] == ZeroState(g).m[h] {
        forall v | 0 <= v < values ensures s.m[h][v] == ZeroState(g).m[h][v] {
          assert s.m[h][v] == Zeros(keys);
        }
      }
    case Conv(channels, width) =>
      forall c | 0 <= c < channels ensures s.w[c] == ZeroState(g).w[c] { assert s.w[c] == Zeros(width); }
  }

  /** There is one blank state. */
  lemma {:induction false} BlankIsStart(t: Target, l: Logical)
    requires Blank(t, l)
    ensures l == Start(t)
  {
    forall i | 0 <= i < |t.geometries| ensures l.states[i] == ZeroStates(t.geometries)[i] {
      assert StateFitsAt(t.geometries, l.states, i);
      ZeroedIsZeroState(t.geometries[i], l.states[i]);
    }
    assert l.states == ZeroStates(t.geometries);
  }

  /** The greedy continuation of a prompt that is read from state `l` on. */
  ghost function GreedyFrom(t: Target, l: Logical, prompt: seq<nat>, n: nat): (tokens: seq<nat>)
    requires t.Valid() && prompt != [] && StatesFit(t.geometries, l.states)
  {
    if n == 0 then []
    else
      var before := GreedyFrom(t, l, prompt, n - 1);
      var context := prompt + before;
      before + [t.choose(After(t, l, context[..|context| - 1]), context[|context| - 1])]
  }

  /** From blank states the greedy continuation is the target's own. */
  lemma {:induction false} GreedyFromBlank(t: Target, l: Logical, prompt: seq<nat>, n: nat)
    requires t.Valid() && prompt != [] && Blank(t, l)
    ensures GreedyFrom(t, l, prompt, n) == Greedy(t, prompt, n)
    decreases n
  {
    BlankIsStart(t, l);
    if n > 0 { GreedyFromBlank(t, l, prompt, n - 1); }
  }

  /** Tokens a request must give: those of the greedy continuation from blank states. */
  ghost predicate FromBlank(t: Target, prompt: seq<nat>, tokens: seq<nat>)
    requires t.Valid() && prompt != []
  {
    forall l: Logical {:trigger Blank(t, l)} :: Blank(t, l) ==> tokens == GreedyFrom(t, l, prompt, |tokens|)
  }

  lemma {:induction false} GreedyIsFromBlank(t: Target, prompt: seq<nat>, n: nat)
    requires t.Valid() && prompt != []
    ensures FromBlank(t, prompt, Greedy(t, prompt, n))
  {
    forall l: Logical | Blank(t, l) ensures Greedy(t, prompt, n) == GreedyFrom(t, l, prompt, n) {
      GreedyFromBlank(t, l, prompt, n);
    }
  }
}
