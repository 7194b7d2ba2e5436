/**
 The K=1 speculative loop: shared device buffers, checkpoint and replay, reuse across requests.
 Whatever the draft proposes, the tokens are the target's own greedy tokens.
 */
module SpeculativeRunner {
  import opened Wrappers
  import opened StateReplay
  import opened Decoding
  import opened PagedDecoding

  /** What the draft head keeps of one fed position. */
  datatype Fed = Fed(token: nat, hidden: Vector, position: nat)

  /** One draft answer: the proposed token and the hidden row it leaves behind. */
  datatype Proposal = Proposal(token: nat, hidden: Vector)

  /** The hidden row a context ends with. */
  ghost function Hiddens(t: Target): (hidden: seq<nat> -> Vector)
    requires t.Valid()
  {
    context => if context == [] then Vector([]) else LastHidden(t, context)
  }

  /**
   What the draft head must have been fed: every committed token, at its own position, with the
   hidden row of the context before it.
   */
  ghost function Pairs(hidden: seq<nat> -> Vector, prompt: seq<nat>, tokens: seq<nat>): (fed: seq<Fed>)
    ensures |fed| == |tokens|
  {
    if tokens == [] then []
    else
      var before := prompt + tokens[..|tokens| - 1];
      Pairs(hidden, prompt, tokens[..|tokens| - 1]) + [Fed(tokens[|tokens| - 1], hidden(before), |before|)]
  }

  /** The hidden rows to feed with the tokens `head` that follow a context. */
  ghost function Waiting(hidden: seq<nat> -> Vector, context: seq<nat>, head: seq<nat>): (rows: seq<Vector>)
    ensures |rows| == |head|
  {
    if head == [] then []
    else
      var front := head[..|head| - 1];
      Waiting(hidden, context, front) + [hidden(context + front)]
  }

  /**
   The state before each round: the model has read everything but the last token; the draft head
   has been fed the tokens `fedTokens`, each with the target's hidden row before it, and is about
   to be fed the one or two remaining tokens `head` with the rows that wait in a buffer.
   */
  ghost predicate Bookkeeping(
    t: Target, prompt: seq<nat>, tokens: seq<nat>, before: seq<nat>, anchor: nat, past: nat, fedTokens: seq<nat>,
    head: seq<nat>, headPast: nat, model: Logical, rows: seq<Vector>, fed: seq<Fed>)
  {
    && t.Valid() && prompt != []
    && tokens == before + [anchor] && past == |prompt| + |before| && model == Reading(t, prompt + before)
    && tokens == fedTokens + head && headPast == |fedTokens| && 1 <= |head| <= 2
    && fed == Pairs(Hiddens(t), prompt, fedTokens) && rows == Waiting(Hiddens(t), prompt + fedTokens, head)
  }

  /** Tokens and hidden rows fed together from a position on. */
  ghost function Zipped(head: seq<nat>, rows: seq<Vector>, position: nat): (fed: seq<Fed>)
    requires |rows| == |head|
    ensures |fed| == |head|
  {
    seq(|head|, i requires 0 <= i < |head| => Fed(head[i], rows[i], position + i))
  }

  ghost predicate AllUpdatesFit(gs: seq<Geometry>, us: seq<seq<Update>>) {
    forall k {:trigger us[k]} :: 0 <= k < |us| ==> UpdatesFit(gs, us[k])
  }

  /** The capture buffers of every state after capturing the given steps. */
  function CapturedAll(gs: seq<Geometry>, capacity: nat, us: seq<seq<Update>>): (cs: seq<Capture>)
    requires AllUpdatesFit(gs, us)
    ensures |cs| == |gs|
  {
    seq(|gs|, i requires 0 <= i < |gs| => Captured(gs[i], capacity, Column(gs, us, i)))
  }

  function Column(gs: seq<Geometry>, us: seq<seq<Update>>, i: nat): (c: seq<Update>)
    requires i < |gs| && AllUpdatesFit(gs, us)
    ensures |c| == |us| && AllFit(gs[i], c)
  {
    seq(|us|, k requires 0 <= k < |us| => Entry(gs, us, k, i))
  }

  function Entry(gs: seq<Geometry>, us: seq<seq<Update>>, k: nat, i: nat): (u: Update)
    requires i < |gs| && AllUpdatesFit(gs, us) && k < |us|
    ensures UpdateFits(gs[i], u)
  {
    assert UpdatesFit(gs, us[k]) && UpdateFitsAt(gs, us[k], i);
    us[k][i]
  }

  class Runner {
    const target: Target
    const draft: seq<Fed> -> Proposal

    const slots: array<Vector>          // paged key/value rows of the target
    const draftSlots: array<Fed>        // paged rows of the draft head
    const selectedHidden: array<Vector> // one row, written by every selection
    const pairHidden: array<Vector>     // the two hidden rows of the last verification
    var states: seq<State>
    var snapshot: seq<State>
    var captures: seq<Capture>
    var firstRun: bool

    ghost predicate Valid()
      reads this
    {
      && target.Valid()
      && StatesFit(target.geometries, states)
      && draftSlots.Length == slots.Length
      && selectedHidden.Length == 1 && pairHidden.Length == 2
      && slots != selectedHidden && slots != pairHidden && selectedHidden != pairHidden
      && (firstRun ==> states == ZeroStates(target.geometries))
    }

    ghost function View(past: nat): (l: Logical)
      reads this, slots
      requires past <= slots.Length
    {
      Viewed(slots, states, past)
    }

    constructor (t: Target, d: seq<Fed> -> Proposal, capacity: nat)
      requires t.Valid()
      ensures Valid() && target == t && draft == d && slots.Length == capacity
      ensures fresh(slots) && fresh(draftSlots) && fresh(selectedHidden) && fresh(pairHidden)
    {
      target, draft := t, d;
      slots := new Vector[capacity](_ => Vector([]));
      draftSlots := new Fed[capacity](_ => Fed(0, Vector([]), 0));
      selectedHidden := new Vector[1](_ => Vector([]));
      pairHidden := new Vector[2](_ => Vector([]));
      states := ZeroStates(t.geometries);
      snapshot := [];
      captures := [];
      firstRun := true;
    }

    /**
     Run the target on a chunk over the shared buffers, stepping the states in place; when asked,
     capture its first update.
     */
    method ExecuteTarget(ids: seq<nat>, past: nat, capture: bool)
      returns (hidden: seq<Vector>, choices: seq<nat>)
      requires Valid() && !firstRun && past + |ids| <= slots.Length && ids != []
      modifies this`states, this`captures, slots
      ensures Valid()
      ensures View(past + |ids|) == After(target, old(View(past)), ids)
      ensures ChunkRows(target, old(View(past)), ids, |ids|, hidden, choices)
      ensures capture ==>
                captures == CapturedAll(target.geometries, target.capacity, [target.updates(old(View(past)), ids[0])])
    {
      if capture {
        var now := Logical(slots[..past], states);
        captures := CapturedAll(target.geometries, target.capacity, [target.updates(now, ids[0])]);
      }
      states, hidden, choices := RunChunk(target, slots, states, ids, past);
    }

    /** Feed committed tokens with their hidden rows to the draft head and take its proposal. */
    method Propose(head: seq<nat>, headPast: nat, position: nat, pending: array<Vector>) returns (proposal: nat)
      requires Valid() && headPast + |head| <= draftSlots.Length && |head| == pending.Length
      requires pending == selectedHidden || pending == pairHidden
      modifies draftSlots, selectedHidden
      ensures draftSlots[..headPast + |head|] == old(draftSlots[..headPast] + Zipped(head, pending[..], position))
      ensures proposal == draft(draftSlots[..headPast + |head|]).token
    {
      for i := 0 to |head|
        invariant pending[..] == old(pending[..])
        invariant draftSlots[..headPast] == old(draftSlots[..headPast])
        invariant forall j :: 0 <= j < i ==> draftSlots[headPast + j] == Fed(head[j], old(pending[j]), position + j)
      {
        draftSlots[headPast + i] := Fed(head[i], pending[i], position + i);
      }
      assert draftSlots[..headPast + |head|] == old(draftSlots[..headPast] + Zipped(head, pending[..], position));
      var answer := draft(draftSlots[..headPast + |head|]);
      selectedHidden[0] := answer.hidden;
      proposal := answer.token;
    }

    /** Checkpoint the states, run the anchor and the proposal, and select both greedy choices. */
    method Verify(anchor: nat, proposal: nat, past: nat) returns (prediction: nat, bonus: nat)
      requires Valid() && !firstRun && past + 2 <= slots.Length
      modifies this`states, this`snapshot, this`captures, slots, selectedHidden, pairHidden
      ensures Valid() && snapshot == old(states)
      ensures View(past + 2) == After(target, old(View(past)), [anchor, proposal])
      ensures prediction == Choice(target, old(View(past)), [anchor, proposal], 0)
      ensures bonus == Choice(target, old(View(past)), [anchor, proposal], 1)
      ensures pairHidden[0] == HiddenRow(target, old(View(past)), [anchor, proposal], 0)
      ensures pairHidden[1] == HiddenRow(target, old(View(past)), [anchor, proposal], 1)
      ensures selectedHidden[0] == pairHidden[0]
      ensures captures ==
              CapturedAll(target.geometries, target.capacity, [target.updates(old(View(past)), anchor)])
    {
      snapshot := states;
      var hidden, choices := ExecuteTarget([anchor, proposal], past, true);
      pairHidden[0], pairHidden[1] := hidden[0], hidden[1];
      selectedHidden[0] := pairHidden[0];
      prediction, bonus := choices[0], choices[1];
    }

    /** Restore the states from the checkpoint by replaying the first captured step. */
    method RollBack(ghost us: seq<Update>)
      requires Valid() && !firstRun && StatesFit(target.geometries, snapshot) && UpdatesFit(target.geometries, us)
      requires captures == CapturedAll(target.geometries, target.capacity, [us])
      modifies this`states
      ensures Valid() && states == StepStates(target.geometries, snapshot, us)
    {
      var next: seq<State> := [];
      for i := 0 to |target.geometries|
        invariant |next| == i
        invariant forall j {:trigger next[j]} :: 0 <= j < i ==> next[j] == StepState(target.geometries, snapshot, us, j)
      {
        var g := target.geometries[i];
        assert StateFitsAt(target.geometries, snapshot, i) && UpdateFitsAt(target.geometries, us, i);
        CapturedColumn(target.geometries, target.capacity, us, i);
        ReplayIsFirstStep(g, target.capacity, snapshot[i], [us[i]]);
        var replayed := Replay(g, target.capacity, snapshot[i], captures[i]);
        next := next + [replayed.value];
      }
      states := next;
      assert next == StepStates(target.geometries, snapshot, us);
    }

    /** The bookkeeping before a round, read off the buffers. */
    ghost predicate Aligned(prompt: seq<nat>, tokens: seq<nat>, before: seq<nat>, anchor: nat, past: nat,
                            fedTokens: seq<nat>, head: seq<nat>, headPast: nat, pending: array<Vector>)
      reads this, slots, draftSlots, pending
    {
      && past <= slots.Length && headPast <= draftSlots.Length
      && (pending == selectedHidden || pending == pairHidden)
      && Bookkeeping(target, prompt, tokens, before, anchor, past, fedTokens, head, headPast, View(past), pending[..],
                     draftSlots[..headPast])
    }

    /** Prefill in chunks and choose the first token; chunking does not matter. */
    method Prefill(prompt: seq<nat>, chunkSize: nat) returns (past: nat, anchor: nat)
      requires Valid() && !firstRun && prompt != [] && chunkSize > 0 && |prompt| <= slots.Length
      requires states == ZeroStates(target.geometries)
      modifies this`states, this`captures, slots, selectedHidden
      ensures Valid() && past == |prompt|
      ensures View(past) == Reading(target, prompt)
      ensures anchor == NextToken(target, prompt)
      ensures selectedHidden[0] == LastHidden(target, prompt)
    {
      past := 0;
      var hidden: seq<Vector>, choices: seq<nat> := [], [];
      ghost var read, rest: seq<nat> := [], prompt;
      assert slots[..0] == [];
      while past < |prompt|
        invariant Valid() && past == |read| && prompt == read + rest
        invariant View(past) == Reading(target, read)
        invariant past > 0 ==> EndsWith(target, read, hidden, choices)
        decreases |rest|
      {
        past, hidden, choices, read, rest := PrefillChunk(prompt, past, chunkSize, read, rest);
      }
      assert read == prompt;
      anchor := choices[|choices| - 1];
      selectedHidden[0] := hidden[|hidden| - 1];
    }

    /** Read the next chunk of the prompt; its last row is the row of all that was read. */
    method PrefillChunk(prompt: seq<nat>, past0: nat, chunkSize: nat, ghost read0: seq<nat>, ghost rest0: seq<nat>)
      returns (past: nat, hidden: seq<Vector>, choices: seq<nat>, ghost read: seq<nat>, ghost rest: seq<nat>)
      requires Valid() && !firstRun && chunkSize > 0 && |prompt| <= slots.Length
      requires past0 == |read0| && prompt == read0 + rest0 && rest0 != []
      requires View(past0) == Reading(target, read0)
      modifies this`states, this`captures, slots
      ensures Valid() && past == |read| && prompt == read + rest && |rest| < |rest0|
      ensures View(past) == Reading(target, read)
      ensures past > 0 && EndsWith(target, read, hidden, choices)
    {
      var chunk := NextChunk(prompt, past0, chunkSize);
      RestOfPrompt(prompt, read0, rest0, chunkSize);
      hidden, choices := ExecuteTarget(chunk, past0, false);
      AfterAppend(target, Start(target), read0, chunk);
      LastRow(target, read0, chunk);
      past, read, rest := past0 + |chunk|, read0 + chunk, rest0[|chunk|..];
    }

    /** Feed the waiting tokens to the draft head and take its proposal. */
    method FeedHead(ghost prompt: seq<nat>, ghost fedTokens: seq<nat>, past: nat, head: seq<nat>, headPast: nat,
                    pending: array<Vector>)
      returns (proposal: nat)
      requires Valid() && (pending == selectedHidden || pending == pairHidden)
      requires headPast == |fedTokens| && headPast + |head| <= draftSlots.Length
      requires past + 1 == |prompt| + headPast + |head|
      requires draftSlots[..headPast] == Pairs(Hiddens(target), prompt, fedTokens)
      requires pending[..] == Waiting(Hiddens(target), prompt + fedTokens, head)
      modifies draftSlots, selectedHidden
      ensures draftSlots[..headPast + |head|] == Pairs(Hiddens(target), prompt, fedTokens + head)
      ensures proposal == draft(draftSlots[..headPast + |head|]).token
    {
      FedAll(Hiddens(target), prompt, fedTokens, head, draftSlots[..headPast], pending[..]);
      proposal := Propose(head, headPast, past + 1 - |head|, pending);
    }

    /** What verification leaves: both choices and hidden rows are the target's own, and the anchor can be replayed. */
    ghost predicate Verified(read: seq<nat>, anchor: nat, proposal: nat, past: nat, prediction: nat, bonus: nat)
      reads this, slots, selectedHidden, pairHidden
    {
      && target.Valid() && past == |read| && past + 2 <= slots.Length
      && selectedHidden.Length == 1 && pairHidden.Length == 2
      && prediction == NextToken(target, read + [anchor])
      && bonus == NextToken(target, read + [anchor] + [proposal])
      && View(past + 2) == Reading(target, read + [anchor] + [proposal])
      && pairHidden[0] == LastHidden(target, read + [anchor])
      && pairHidden[1] == LastHidden(target, read + [anchor] + [proposal])
      && selectedHidden[0] == LastHidden(target, read + [anchor])
      && slots[..past + 1] == Reading(target, read + [anchor]).kvs
      && Replayable(target, read, anchor, snapshot, captures)
    }

    /** Verify a proposal after the context `read` and the anchor. */
    method CheckProposal(ghost read: seq<nat>, anchor: nat, proposal: nat, past: nat)
      returns (prediction: nat, bonus: nat)
      requires Valid() && !firstRun && past + 2 <= slots.Length && past == |read|
      requires View(past) == Reading(target, read)
      modifies this`states, this`snapshot, this`captures, slots, selectedHidden, pairHidden
      ensures Valid() && Verified(read, anchor, proposal, past, prediction, bonus)
    {
      RoundFacts(target, read, anchor, proposal);
      prediction, bonus := Verify(anchor, proposal, past);
      assert slots[..past + 1] == slots[..past + 2][..past + 1];
    }

    /** After a rejected proposal: the states as if only the anchor had been read. */
    method Restore(ghost read: seq<nat>, ghost anchor: nat, past: nat)
      requires Valid() && !firstRun && past == |read| && past < slots.Length
      requires slots[..past + 1] == Reading(target, read + [anchor]).kvs
      requires Replayable(target, read, anchor, snapshot, captures)
      modifies this`states
      ensures Valid() && View(past + 1) == Reading(target, read + [anchor])
    {
      ReadOne(target, read, anchor);
      RollBack(target.updates(Reading(target, read), anchor));
    }

    /** Commit an accepted proposal and the bonus token; the pair of hidden rows waits with them. */
    method KeepBoth(ghost prompt: seq<nat>, ghost tokens: seq<nat>, past: nat, proposal: nat, bonus: nat)
      returns (emitted: seq<nat>, anchor: nat, past': nat, head: seq<nat>, pending: array<Vector>,
               ghost before: seq<nat>)
      requires Valid() && prompt != [] && tokens != [] && past + 1 == |prompt| + |tokens| <= slots.Length - 1
      requires |tokens| <= draftSlots.Length && draftSlots[..|tokens|] == Pairs(Hiddens(target), prompt, tokens)
      requires tokens == Greedy(target, prompt, |tokens|) && proposal == NextToken(target, prompt + tokens)
      requires bonus == NextToken(target, prompt + tokens + [proposal])
      requires View(past + 2) == Reading(target, prompt + tokens + [proposal])
      requires pairHidden[0] == Hiddens(target)(prompt + tokens)
      requires pairHidden[1] == Hiddens(target)(prompt + tokens + [proposal])
      ensures |emitted| == 2 && tokens + emitted == Greedy(target, prompt, |tokens + emitted|)
      ensures Aligned(prompt, tokens + emitted, before, anchor, past', tokens, head, |tokens|, pending)
    {
      AcceptedTokens(target, prompt, tokens, proposal, bonus);
      WaitingPair(Hiddens(target), prompt + tokens, proposal, bonus);
      past', pending, head, before := past + 2, pairHidden, [proposal, bonus], tokens + [proposal];
      emitted, anchor := [proposal, bonus], bonus;
    }

    /** Commit the target's choice; the single selected hidden row waits with it. */
    method KeepOne(ghost prompt: seq<nat>, ghost tokens: seq<nat>, past: nat, prediction: nat)
      returns (emitted: seq<nat>, anchor: nat, past': nat, head: seq<nat>, pending: array<Vector>,
               ghost before: seq<nat>)
      requires Valid() && prompt != [] && tokens != [] && past + 1 == |prompt| + |tokens| <= slots.Length
      requires |tokens| <= draftSlots.Length && draftSlots[..|tokens|] == Pairs(Hiddens(target), prompt, tokens)
      requires tokens == Greedy(target, prompt, |tokens|) && prediction == NextToken(target, prompt + tokens)
      requires View(past + 1) == Reading(target, prompt + tokens)
      requires selectedHidden[0] == Hiddens(target)(prompt + tokens)
      ensures |emitted| == 1 && tokens + emitted == Greedy(target, prompt, |tokens + emitted|)
      ensures Aligned(prompt, tokens + emitted, before, anchor, past', tokens, head, |tokens|, pending)
    {
      GreedyNext(target, prompt, tokens);
      WaitingPair(Hiddens(target), prompt + tokens, prediction, 0);
      past', pending, head, before := past + 1, selectedHidden, [prediction], tokens;
      emitted, anchor := [prediction], prediction;
    }

    /** One round: propose, verify, then keep both tokens or roll back to one. */
    method Round(ghost prompt: seq<nat>, ghost tokens: seq<nat>, ghost before: seq<nat>, anchor: nat, past: nat,
                 ghost fedTokens: seq<nat>, head: seq<nat>, headPast: nat, pending: array<Vector>)
      returns (emitted: seq<nat>, anchor': nat, past': nat, head': seq<nat>, headPast': nat, pending': array<Vector>,
               ghost before': seq<nat>)
      requires Valid() && !firstRun && Aligned(prompt, tokens, before, anchor, past, fedTokens, head, headPast, pending)
      requires |prompt| + |tokens| + 1 <= slots.Length
      requires tokens == Greedy(target, prompt, |tokens|)
      modifies this`states, this`snapshot, this`captures, slots, draftSlots, selectedHidden, pairHidden
      ensures Valid() && 1 <= |emitted| <= 2 && headPast' == |tokens|
      ensures tokens + emitted == Greedy(target, prompt, |tokens + emitted|)
      ensures Aligned(prompt, tokens + emitted, before', anchor', past', tokens, head', headPast', pending')
    {
      var proposal, prediction, bonus :=
        Attempt(prompt, tokens, before, anchor, past, fedTokens, head, headPast, pending);
      headPast' := headPast + |head|;
      emitted, anchor', past', head', pending', before' :=
        Settle(prompt, tokens, prompt + before, anchor, past, proposal, prediction, bonus);
    }

    /** Propose and verify. */
    method Attempt(ghost prompt: seq<nat>, ghost tokens: seq<nat>, ghost before: seq<nat>, anchor: nat, past: nat,
                   ghost fedTokens: seq<nat>, head: seq<nat>, headPast: nat, pending: array<Vector>)
      returns (proposal: nat, prediction: nat, bonus: nat)
      requires Valid() && !firstRun && Aligned(prompt, tokens, before, anchor, past, fedTokens, head, headPast, pending)
      requires |prompt| + |tokens| + 1 <= slots.Length
      modifies this`states, this`snapshot, this`captures, slots, draftSlots, selectedHidden, pairHidden
      ensures Valid() && Verified(prompt + before, anchor, proposal, past, prediction, bonus)
      ensures prompt + before + [anchor] == prompt + tokens && headPast + |head| == |tokens|
      ensures draftSlots[..|tokens|] == Pairs(Hiddens(target), prompt, tokens)
    {
      RoundStart(target, prompt, tokens, before, anchor, past, fedTokens, head, headPast, View(past), pending[..],
                 draftSlots[..headPast]);
      proposal := FeedHead(prompt, fedTokens, past, head, headPast, pending);
      prediction, bonus := CheckProposal(prompt + before, anchor, proposal, past);
    }

    /** Keep the proposal and the bonus if the target agrees, else go back and keep the target's choice. */
    method Settle(ghost prompt: seq<nat>, ghost tokens: seq<nat>, ghost read: seq<nat>, ghost anchor: nat, past: nat,
                  proposal: nat, prediction: nat, bonus: nat)
      returns (emitted: seq<nat>, anchor': nat, past': nat, head: seq<nat>, pending: array<Vector>, ghost before: seq<nat>)
      requires Valid() && !firstRun && Verified(read, anchor, proposal, past, prediction, bonus)
      requires prompt != [] && tokens != [] && read + [anchor] == prompt + tokens
      requires |tokens| <= draftSlots.Length && draftSlots[..|tokens|] == Pairs(Hiddens(target), prompt, tokens)
      requires tokens == Greedy(target, prompt, |tokens|)
      modifies this`states
      ensures Valid() && |emitted| == (if proposal == prediction then 2 else 1)
      ensures tokens + emitted == Greedy(target, prompt, |tokens + emitted|)
      ensures Aligned(prompt, tokens + emitted, before, anchor', past', tokens, head, |tokens|, pending)
    {
      if proposal == prediction {
        emitted, anchor', past', head, pending, before := KeepBoth(prompt, tokens, past, proposal, bonus);
      } else {
        Restore(read, anchor, past);
        emitted, anchor', past', head, pending, before := KeepOne(prompt, tokens, past, prediction);
      }
    }

    /** Right after prefill: the first token is the target's, and its hidden row waits with it. */
    method FirstToken(prompt: seq<nat>, chunkSize: nat) returns (past: nat, anchor: nat)
      requires Valid() && !firstRun && prompt != [] && chunkSize > 0 && |prompt| <= slots.Length
      requires states == ZeroStates(target.geometries)
      modifies this`states, this`captures, slots, selectedHidden
      ensures Valid() && [anchor] == Greedy(target, prompt, 1)
      ensures Aligned(prompt, [anchor], [], anchor, past, [], [anchor], 0, selectedHidden)
    {
      past, anchor := Prefill(prompt, chunkSize);
      assert prompt + [] == prompt && [] + [anchor] == [anchor];
      GreedyNext(target, prompt, []);
      WaitingPair(Hiddens(target), prompt, anchor, 0);
      assert selectedHidden[..] == [Hiddens(target)(prompt)];
      assert draftSlots[..0] == [];
    }

    /** Rounds until the requested number of tokens is there; the last round may emit one too many. */
    method Speculate(prompt: seq<nat>, generated: nat, past0: nat, anchor0: nat) returns (result: Generation)
      requires Valid() && !firstRun && 1 <= generated && |prompt| + generated <= slots.Length
      requires prompt != [] && [anchor0] == Greedy(target, prompt, 1)
      requires Aligned(prompt, [anchor0], [], anchor0, past0, [], [anchor0], 0, selectedHidden)
      modifies this`states, this`snapshot, this`captures, slots, draftSlots, selectedHidden, pairHidden
      ensures Valid()
      ensures result.tokens == Greedy(target, prompt, generated) && result.Consistent()
    {
      var past, anchor, tokens, head, headPast: nat, pending := past0, anchor0, [anchor0], [anchor0], 0, selectedHidden;
      var rounds: nat, accepted: nat, rejections: nat := 0, 0, 0;
      ghost var before: seq<nat>, fedTokens: seq<nat> := [], [];
      while |tokens| < generated
        invariant Valid() && !firstRun && |tokens| <= generated
        invariant tokens == Greedy(target, prompt, |tokens|)
        invariant |tokens| < generated ==>
                    Aligned(prompt, tokens, before, anchor, past, fedTokens, head, headPast, pending)
        invariant Counted(|tokens|, generated, rounds, headPast, accepted, rejections)
      {
        ghost var read := tokens;
        var emitted;
        emitted, anchor, past, head, headPast, pending, before :=
          Round(prompt, tokens, before, anchor, past, fedTokens, head, headPast, pending);
        CountedRound(|tokens|, |emitted|, generated, rounds, accepted, rejections);
        fedTokens, rounds := read, rounds + 1;
        if |emitted| == 2 { accepted := accepted + 1; } else { rejections := rejections + 1; }
        AppendedIsGreedy(target, prompt, tokens, emitted, generated);
        tokens := Appended(tokens, emitted, generated);
      }
      result := Generation(tokens, rounds, headPast, accepted, rejections);
    }

    /**
     Serve one request. Whatever the draft is, whatever earlier requests left in the buffers, and
     for any positive chunk size, the tokens are the target's own greedy tokens, exactly as many as
     asked for.
     */
    method Generate(prompt: seq<nat>, generated: int, chunkSize: nat) returns (result: Option<Generation>)
      requires Valid() && chunkSize > 0
      modifies this, slots, draftSlots, selectedHidden, pairHidden
      ensures Valid()
      ensures result.Some? <==> prompt != [] && generated >= 1 && |prompt| + generated <= slots.Length
      ensures result.Some? ==> result.value.tokens == Greedy(target, prompt, generated)
      ensures result.Some? ==> FromBlank(target, prompt, result.value.tokens)
      ensures result.Some? ==> result.value.Consistent()
      ensures result.Some? ==>
                var r := result.value;
                r.rounds == r.accepted + r.rejections
                && generated <= 1 + r.accepted * 2 + r.rejections <= generated + 1
    {
      if prompt == [] || generated < 1 || |prompt| + generated > slots.Length { return None; }
      if !firstRun { states := ZeroStates(target.geometries); }
      firstRun := false;
      var past, anchor := FirstToken(prompt, chunkSize);
      var finished := Speculate(prompt, generated, past, anchor);
      GreedyIsFromBlank(target, prompt, generated);
      result := Some(finished);
    }
  }

  /** The counters between rounds: `fed` tokens have gone to the draft head. */
  predicate Counted(tokens: nat, generated: nat, rounds: nat, fed: nat, accepted: nat, rejections: nat) {
    && rounds == accepted + rejections
    && tokens <= 1 + rounds + accepted <= tokens + 1
    && (tokens < generated ==> tokens == 1 + rounds + accepted)
    && if rounds == 0 then fed == 0 else fed < 1 + rounds + accepted <= fed + 2
  }

  lemma {:induction false} CountedRound(tokens: nat, emitted: nat, generated: nat, rounds: nat, accepted: nat, rejections: nat)
    requires tokens < generated && 1 <= emitted <= 2
    requires rounds == accepted + rejections && tokens == 1 + rounds + accepted
    ensures var all := if tokens + emitted <= generated then tokens + emitted else generated;
            if emitted == 2 then Counted(all, generated, rounds + 1, tokens, accepted + 1, rejections)
            else Counted(all, generated, rounds + 1, tokens, accepted, rejections + 1)
  {
  }

  /** Append what still fits into the requested number of tokens. */
  function Appended(tokens: seq<nat>, emitted: seq<nat>, generated: nat): (all: seq<nat>)
    requires |tokens| <= generated
    ensures |all| == if |tokens| + |emitted| <= generated then |tokens| + |emitted| else generated
  {
    var room := generated - |tokens|;
    tokens + if |emitted| <= room then emitted else emitted[..room]
  }

  lemma {:induction false} AppendedIsGreedy(t: Target, prompt: seq<nat>, tokens: seq<nat>, emitted: seq<nat>,
                                            generated: nat)
    requires t.Valid() && prompt != [] && |tokens| <= generated
    requires tokens + emitted == Greedy(t, prompt, |tokens + emitted|)
    ensures var all := Appended(tokens, emitted, generated);
            && all == Greedy(t, prompt, |all|)
            && (|tokens| + |emitted| <= generated ==> all == tokens + emitted)
  {
    var all := Appended(tokens, emitted, generated);
    GreedyPrefix(t, prompt, |all|, |tokens + emitted|);
    assert (tokens + emitted)[..|all|] == all;
  }

  /** A finished request with its statistics. */
  datatype Generation = Generation(tokens: seq<nat>, rounds: nat, draftInputTokens: nat, accepted: nat, rejections: nat) {
    /** Every round accepts or replays; each emits two tokens or one, and only the last may be cut short. */
    predicate Consistent() {
      Counted(|tokens|, |tokens|, rounds, draftInputTokens, accepted, rejections)
    }
  }

  /** The checkpoint and the capture of a verification, from which the anchor's step can be replayed. */
  ghost predicate Replayable(t: Target, read: seq<nat>, anchor: nat, snapshot: seq<State>, captures: seq<Capture>) {
    && t.Valid() && snapshot == Reading(t, read).states
    && captures == CapturedAll(t.geometries, t.capacity, [t.updates(Reading(t, read), anchor)])
  }

  lemma {:induction false} CapturedColumn(gs: seq<Geometry>, capacity: nat, us: seq<Update>, i: nat)
    requires UpdatesFit(gs, us) && i < |gs|
    ensures AllFit(gs[i], [us[i]]) && CapturedAll(gs, capacity, [us])[i] == Captured(gs[i], capacity, [us[i]])
  {
    assert [us][0] == us && UpdateFitsAt(gs, us, i);
    assert Column(gs, [us], i) == [us[i]];
  }

  /** The last output row of a chunk is the row of the whole context. */
  ghost predicate EndsWith(t: Target, context: seq<nat>, hidden: seq<Vector>, choices: seq<nat>) {
    && t.Valid() && context != [] && hidden != [] && choices != []
    && hidden[|hidden| - 1] == LastHidden(t, context) && choices[|choices| - 1] == NextToken(t, context)
  }

  // ---- One round --------------------------------------------------------------------------------

  lemma {:induction false} RoundStart(
    t: Target, prompt: seq<nat>, tokens: seq<nat>, before: seq<nat>, anchor: nat, past: nat, fedTokens: seq<nat>,
    head: seq<nat>, headPast: nat, model: Logical, rows: seq<Vector>, fed: seq<Fed>)
    requires Bookkeeping(t, prompt, tokens, before, anchor, past, fedTokens, head, headPast, model, rows, fed)
    ensures prompt + before + [anchor] == prompt + tokens && fedTokens + head == tokens
    ensures headPast + |head| == |tokens| && past + 1 == |prompt| + |tokens| && past == |prompt + before|
  {
    assert prompt + before + [anchor] == prompt + (before + [anchor]);
  }

  /** Running the anchor and any proposal after `read`. */
  lemma {:induction false} RoundFacts(t: Target, read: seq<nat>, anchor: nat, proposal: nat)
    requires t.Valid()
    ensures var l, ids := Reading(t, read), [anchor, proposal];
            && Choice(t, l, ids, 0) == NextToken(t, read + [anchor])
            && HiddenRow(t, l, ids, 0) == LastHidden(t, read + [anchor])
            && Choice(t, l, ids, 1) == NextToken(t, read + [anchor] + [proposal])
            && HiddenRow(t, l, ids, 1) == LastHidden(t, read + [anchor] + [proposal])
            && After(t, l, ids) == Reading(t, read + [anchor] + [proposal])
            && After(t, l, ids).kvs[..|read| + 1] == Reading(t, read + [anchor]).kvs
  {
    var l, a, ids := Reading(t, read), [anchor], [anchor, proposal];
    assert ids[..0] == [] == a[..0] && ids[..1] == a;
    ReadOne(t, read, anchor);
    ReadOne(t, read + [anchor], proposal);
    assert After(t, l, a) == Next(t, l, anchor);
  }

  lemma {:induction false} PairsOneMore(hidden: seq<nat> -> Vector, prompt: seq<nat>, tokens: seq<nat>, token: nat)
    ensures Pairs(hidden, prompt, tokens + [token])
         == Pairs(hidden, prompt, tokens) + [Fed(token, hidden(prompt + tokens), |prompt| + |tokens|)]
  {
    assert (tokens + [token])[..|tokens + [token]| - 1] == tokens;
  }

  /** Each pair is a committed token at its own position with the target's hidden row of the context before it. */
  lemma {:induction false} PairsMeans(t: Target, prompt: seq<nat>, tokens: seq<nat>, i: nat)
    requires t.Valid() && prompt != [] && i < |tokens|
    ensures Pairs(Hiddens(t), prompt, tokens)[i] == Fed(tokens[i], LastHidden(t, prompt + tokens[..i]), |prompt| + i)
    decreases |tokens|
  {
    if i < |tokens| - 1 {
      PairsMeans(t, prompt, tokens[..|tokens| - 1], i);
      assert tokens[..|tokens| - 1][..i] == tokens[..i];
    }
  }

  lemma {:induction false} WaitingOneMore(hidden: seq<nat> -> Vector, context: seq<nat>, head: seq<nat>, token: nat)
    ensures Waiting(hidden, context, head + [token]) == Waiting(hidden, context, head) + [hidden(context + head)]
  {
    assert (head + [token])[..|head + [token]| - 1] == head;
  }

  /** After feeding the waiting rows, the head holds one pair per committed token. */
  lemma {:induction false} FedOneMore(hidden: seq<nat> -> Vector, prompt: seq<nat>, fedTokens: seq<nat>, head: seq<nat>)
    ensures Pairs(hidden, prompt, fedTokens + head)
         == Pairs(hidden, prompt, fedTokens) + Zipped(head, Waiting(hidden, prompt + fedTokens, head), |prompt| + |fedTokens|)
    decreases |head|
  {
    if head == [] {
      assert fedTokens + head == fedTokens;
    } else {
      var front, last := head[..|head| - 1], head[|head| - 1];
      assert head == front + [last];
      FedOneMore(hidden, prompt, fedTokens, front);
      FedLast(hidden, prompt, fedTokens, front, last);
    }
  }

  lemma {:induction false} FedAll(hidden: seq<nat> -> Vector, prompt: seq<nat>, fedTokens: seq<nat>, head: seq<nat>,
                                  fed: seq<Fed>, rows: seq<Vector>)
    requires fed == Pairs(hidden, prompt, fedTokens) && rows == Waiting(hidden, prompt + fedTokens, head)
    ensures |rows| == |head|
    ensures fed + Zipped(head, rows, |prompt| + |fedTokens|) == Pairs(hidden, prompt, fedTokens + head)
  {
    FedOneMore(hidden, prompt, fedTokens, head);
  }

  lemma {:induction false} FedLast(hidden: seq<nat> -> Vector, prompt: seq<nat>, fedTokens: seq<nat>, front: seq<nat>, last: nat)
    requires Pairs(hidden, prompt, fedTokens + front)
          == Pairs(hidden, prompt, fedTokens) + Zipped(front, Waiting(hidden, prompt + fedTokens, front), |prompt| + |fedTokens|)
    ensures Pairs(hidden, prompt, fedTokens + (front + [last]))
         == Pairs(hidden, prompt, fedTokens)
            + Zipped(front + [last], Waiting(hidden, prompt + fedTokens, front + [last]), |prompt| + |fedTokens|)
  {
    var context, position := prompt + fedTokens, |prompt| + |fedTokens|;
    var row := hidden(context + front);
    PairsOneMore(hidden, prompt, fedTokens + front, last);
    WaitingOneMore(hidden, context, front, last);
    assert fedTokens + front + [last] == fedTokens + (front + [last]);
    assert prompt + (fedTokens + front) == context + front;
    ZippedOneMore(front, Waiting(hidden, context, front), position, last, row);
  }

  lemma {:induction false} ZippedOneMore(head: seq<nat>, rows: seq<Vector>, position: nat, token: nat, row: Vector)
    requires |rows| == |head|
    ensures Zipped(head + [token], rows + [row], position)
         == Zipped(head, rows, position) + [Fed(token, row, position + |head|)]
  {
  }

  /** Accepting commits the proposal and the bonus, and both are the target's own choices. */
  lemma {:induction false} AcceptedTokens(t: Target, prompt: seq<nat>, tokens: seq<nat>, proposal: nat, bonus: nat)
    requires t.Valid() && prompt != [] && tokens == Greedy(t, prompt, |tokens|)
    requires proposal == NextToken(t, prompt + tokens)
    requires bonus == NextToken(t, prompt + tokens + [proposal])
    ensures tokens + [proposal, bonus] == Greedy(t, prompt, |tokens| + 2)
    ensures prompt + (tokens + [proposal]) == prompt + tokens + [proposal]
    ensures tokens + [proposal] + [bonus] == tokens + [proposal, bonus]
  {
    GreedyNext(t, prompt, tokens);
    assert prompt + (tokens + [proposal]) == prompt + tokens + [proposal];
    GreedyNext(t, prompt, tokens + [proposal]);
    assert tokens + [proposal] + [bonus] == tokens + [proposal, bonus];
  }

  /** The rows that wait after one or two committed tokens. */
  lemma {:induction false} WaitingPair(hidden: seq<nat> -> Vector, context: seq<nat>, first: nat, second: nat)
    ensures Waiting(hidden, context, [first]) == [hidden(context)]
    ensures Waiting(hidden, context, [first, second]) == [hidden(context), hidden(context + [first])]
  {
    WaitingOneMore(hidden, context, [], first);
    WaitingOneMore(hidden, context, [first], second);
    assert [] + [first] == [first] && [first] + [second] == [first, second];
    assert context + [] == context;
  }
}
