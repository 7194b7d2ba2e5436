/**
 The paged key/value cache and the plain decoding loop over it: the prompt in chunks of any size,
 then one token at a time.
 */
module PagedDecoding {
  import opened Wrappers
  import opened StateReplay
  import opened Decoding

  /** The first `past` physical rows and the states, read as one logical model state. */
  ghost function Viewed(slots: array<Vector>, states: seq<State>, past: nat): (l: Logical)
    reads slots
    requires past <= slots.Length
  {
    Logical(slots[..past], states)
  }

  /** The first `n` hidden rows and choices of a chunk. */
  ghost predicate ChunkRows(t: Target, l: Logical, ids: seq<nat>, n: nat, hidden: seq<Vector>, choices: seq<nat>) {
    && t.Valid() && StatesFit(t.geometries, l.states) && n <= |ids| && |hidden| == n && |choices| == n
    && (forall i {:trigger hidden[i]} :: 0 <= i < n ==> hidden[i] == HiddenRow(t, l, ids, i))
    && (forall i {:trigger choices[i]} :: 0 <= i < n ==> choices[i] == Choice(t, l, ids, i))
  }

  /**
   Run the target on a chunk. It reads only the rows below `past` and its own, and overwrites the
   rows from `past` on, so whatever those rows held before does not matter.
   */
  method RunChunk(t: Target, slots: array<Vector>, states0: seq<State>, ids: seq<nat>, past: nat)
    returns (states: seq<State>, hidden: seq<Vector>, choices: seq<nat>)
    requires t.Valid() && StatesFit(t.geometries, states0) && past + |ids| <= slots.Length
    modifies slots
    ensures StatesFit(t.geometries, states)
    ensures Viewed(slots, states, past + |ids|) == After(t, old(Viewed(slots, states0, past)), ids)
    ensures ChunkRows(t, old(Viewed(slots, states0, past)), ids, |ids|, hidden, choices)
  {
    states, hidden, choices := states0, [], [];
    ghost var start := Viewed(slots, states0, past);
    assert ids[..0] == [];
    for i := 0 to |ids|
      invariant StatesFit(t.geometries, states)
      invariant Viewed(slots, states, past + i) == After(t, start, ids[..i])
      invariant ChunkRows(t, start, ids, i, hidden, choices)
    {
      assert ids[..i + 1][..i] == ids[..i];
      var now := Logical(slots[..past + i], states);
      hidden := hidden + [t.hidden(now, ids[i])];
      choices := choices + [t.choose(now, ids[i])];
      slots[past + i] := t.row(now, ids[i]);
      states := t.step(now, ids[i]);
      assert slots[..past + (i + 1)] == now.kvs + [t.row(now, ids[i])];
    }
    assert ids[..|ids|] == ids;
  }

  lemma {:induction false} ReadFront(t: Target, read: seq<nat>, front: seq<nat>, last: nat)
    requires t.Valid()
    ensures t.choose(After(t, Reading(t, read), front), last) == NextToken(t, read + front + [last])
    ensures t.hidden(After(t, Reading(t, read), front), last) == LastHidden(t, read + front + [last])
  {
    AfterAppend(t, Start(t), read, front);
    ReadOne(t, read + front, last);
  }

  /** The last row of a chunk run after `read` is the row of the whole context. */
  lemma {:induction false} LastRow(t: Target, read: seq<nat>, chunk: seq<nat>)
    requires t.Valid() && chunk != []
    ensures Choice(t, Reading(t, read), chunk, |chunk| - 1) == NextToken(t, read + chunk)
    ensures HiddenRow(t, Reading(t, read), chunk, |chunk| - 1) == LastHidden(t, read + chunk)
  {
    var front, last := chunk[..|chunk| - 1], chunk[|chunk| - 1];
    assert read + front + [last] == read + chunk;
    ReadFront(t, read, front, last);
  }

  /** Between forward passes: what has been read, what is read next, and the rest of the prompt. */
  ghost predicate Underway(
    t: Target, prompt: seq<nat>, tokens: seq<nat>, read: seq<nat>, current: seq<nat>, rest: seq<nat>, model: Logical)
  {
    && t.Valid() && prompt != [] && current != []
    && prompt + tokens == read + current + rest
    && (tokens != [] ==> |current| == 1 && rest == [])
    && model == Reading(t, read)
    && tokens == Greedy(t, prompt, |tokens|)
  }

  lemma {:induction false} OneMoreToken(
    t: Target, prompt: seq<nat>, tokens: seq<nat>, read: seq<nat>, current: seq<nat>, model: Logical, token: nat)
    requires Underway(t, prompt, tokens, read, current, [], model)
    requires token == Choice(t, model, current, |current| - 1)
    ensures Underway(t, prompt, tokens + [token], read + current, [token], [], After(t, model, current))
  {
    assert read + current + [] == read + current;
    AfterAppend(t, Start(t), read, current);
    LastRow(t, read, current);
    GreedyNext(t, prompt, tokens);
    assert prompt + (tokens + [token]) == read + current + [token] + [];
  }

  /** The next chunk of the prompt. */
  function NextChunk(prompt: seq<nat>, past: nat, size: nat): (chunk: seq<nat>)
    requires past < |prompt| && size > 0
    ensures chunk != [] && |chunk| == if past + size <= |prompt| then size else |prompt| - past
    ensures prompt == prompt[..past] + chunk + prompt[past + |chunk|..]
  {
    if past + size <= |prompt| then prompt[past..past + size] else prompt[past..]
  }

  lemma {:induction false} MoreOfPrompt(t: Target, prompt: seq<nat>, read: seq<nat>, current: seq<nat>, rest: seq<nat>, model: Logical,
                     next: seq<nat>, more: seq<nat>)
    requires Underway(t, prompt, [], read, current, rest, model)
    requires next != [] && rest == next + more
    ensures Underway(t, prompt, [], read + current, next, more, After(t, model, current))
  {
    AfterAppend(t, Start(t), read, current);
    assert prompt + [] == read + current + next + more;
  }

  lemma {:induction false} RestOfPrompt(prompt: seq<nat>, read: seq<nat>, rest: seq<nat>, size: nat)
    requires prompt == read + rest && rest != [] && size > 0
    ensures var next := NextChunk(prompt, |read|, size);
            |next| <= |rest| && rest == next + rest[|next|..]
  {
    var next := NextChunk(prompt, |read|, size);
    assert prompt[|read|..] == rest;
    assert prompt[|read|..][..|next|] == next;
  }

  /** One forward pass and what to read next: the following chunk, or the token just chosen. */
  method Pass(t: Target, slots: array<Vector>, states0: seq<State>, prompt: seq<nat>, size: nat, tokens0: seq<nat>,
              past: nat, current0: seq<nat>, ghost read: seq<nat>, ghost rest0: seq<nat>)
    returns (states: seq<State>, tokens: seq<nat>, current: seq<nat>, ghost rest: seq<nat>)
    requires size > 0 && past == |read| && past + |current0| <= slots.Length && StatesFit(t.geometries, states0)
    requires Underway(t, prompt, tokens0, read, current0, rest0, Viewed(slots, states0, past))
    modifies slots
    ensures StatesFit(t.geometries, states)
    ensures Underway(t, prompt, tokens, read + current0, current, rest, Viewed(slots, states, past + |current0|))
    ensures if |read| + |current0| < |prompt| then tokens == tokens0 else |tokens| == |tokens0| + 1
  {
    var n, hidden, choices := |current0|, [], [];
    ghost var before := Viewed(slots, states0, past);
    states, hidden, choices := RunChunk(t, slots, states0, current0, past);
    assert |prompt| + |tokens0| == |read| + n + |rest0|;
    if past + n < |prompt| {
      current, tokens := NextChunk(prompt, past + n, size), tokens0;
      assert prompt + [] == prompt;
      RestOfPrompt(prompt, read + current0, rest0, size);
      rest := rest0[|current|..];
      MoreOfPrompt(t, prompt, read, current0, rest0, before, current, rest);
    } else {
      OneMoreToken(t, prompt, tokens0, read, current0, before, choices[n - 1]);
      tokens, current, rest := tokens0 + [choices[n - 1]], [choices[n - 1]], [];
    }
  }

  /**
   Decode `generated` tokens. Any positive chunk size gives the target's greedy tokens; the loop
   fails exactly when a request is malformed or some forward pass would not fit the cache.
   */
  method RunOnce(t: Target, capacity: nat, prompt: seq<nat>, generated: int, chunk: Option<int>)
    returns (result: Option<seq<nat>>)
    requires t.Valid()
    ensures result.Some? <==>
            && prompt != [] && (chunk.None? || chunk.value > 0)
            && generated >= 1 && |prompt| + generated <= capacity + 1
    ensures result.Some? ==> result.value == Greedy(t, prompt, generated) && FromBlank(t, prompt, result.value)
  {
    if prompt == [] || (chunk.Some? && chunk.value <= 0) || generated < 1 { return None; }
    var size := if chunk.Some? then chunk.value else |prompt|;
    var slots := new Vector[capacity](_ => Vector([]));
    var states := ZeroStates(t.geometries);
    var tokens: seq<nat>, past: nat := [], 0;
    var current := NextChunk(prompt, 0, size);
    ghost var read, rest := [], prompt[|current|..];
    assert slots[..0] == [] && prompt + tokens == [] + current + rest;
    while |tokens| < generated
      invariant StatesFit(t.geometries, states) && |tokens| <= generated && past == |read| && past <= capacity
      invariant Underway(t, prompt, tokens, read, current, rest, Viewed(slots, states, past))
      decreases generated - |tokens|, |prompt| + |tokens| - past
    {
      if past + |current| > capacity { return None; }
      ghost var now := read + current;
      var next := past + |current|;
      states, tokens, current, rest := Pass(t, slots, states, prompt, size, tokens, past, current, read, rest);
      past, read := next, now;
    }
    GreedyIsFromBlank(t, prompt, generated);
    result := Some(tokens);
  }
}
