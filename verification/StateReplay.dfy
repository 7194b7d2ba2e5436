/**
 One-token state replay: a recurrent or convolution state is stepped again from a checkpoint with
 nothing but the captured update. Real arithmetic stands for the floating-point kernels.
 */
module StateReplay {
  import opened Wrappers

  /** The dimensions of one state: `heads` x `values` x `keys`, or `channels` x `width`. */
  datatype Geometry =
    | Recurrent(heads: nat, keyHeads: nat, values: nat, keys: nat)
    | Conv(channels: nat, width: nat)
  {
    predicate Valid() {
      match this
      case Recurrent(heads, keyHeads, values, keys) =>
        0 < heads && 0 < keyHeads && heads % keyHeads == 0 && 0 < values && 0 < keys <= 256
      case Conv(channels, _) => 0 < channels
    }
  }

  datatype State =
    | Matrix(m: seq<seq<seq<real>>>)
    | Window(w: seq<seq<real>>)

  /** What one token contributes: a decay per head, its key rows and value deltas, or new samples. */
  datatype Update =
    | Gated(decay: seq<real>, key: seq<real>, delta: seq<real>)
    | Samples(values: seq<real>)

  /** A capture buffer: the packed capsule, or one row of samples per slot. */
  datatype Capture =
    | Capsule(data: seq<real>)
    | Rows(rows: seq<seq<real>>)

  predicate StateFits(g: Geometry, s: State) {
    match g
    case Recurrent(heads, _, values, keys) =>
      && s.Matrix? && |s.m| == heads
      && forall h :: 0 <= h < heads ==> |s.m[h]| == values && forall v :: 0 <= v < values ==> |s.m[h][v]| == keys
    case Conv(channels, width) =>
      s.Window? && |s.w| == channels && forall c :: 0 <= c < channels ==> |s.w[c]| == width
  }

  predicate UpdateFits(g: Geometry, u: Update) {
    match g
    case Recurrent(heads, keyHeads, values, keys) =>
      u.Gated? && |u.decay| == heads && |u.key| == keyHeads * keys && |u.delta| == heads * values
    case Conv(channels, _) => u.Samples? && |u.values| == channels
  }

  /** Every update of a chunk has the dimensions of the state. */
  ghost predicate AllFit(g: Geometry, us: seq<Update>) {
    forall i {:trigger us[i]} :: 0 <= i < |us| ==> UpdateFits(g, us[i])
  }

  lemma {:induction false} FlatIndex(row: nat, rows: nat, column: nat, columns: nat)
    requires row < rows && column < columns
    ensures row * columns + column < rows * columns
  {
    assert (row + 1) * columns <= rows * columns;
  }

  lemma {:induction false} GroupOfHead(h: nat, heads: nat, keyHeads: nat)
    requires h < heads && 0 < keyHeads && heads % keyHeads == 0
    ensures 0 < heads / keyHeads && h / (heads / keyHeads) < keyHeads
  {
    var size := heads / keyHeads;
    assert heads == keyHeads * size;
    assert size != 0;
    var q := h / size;
    assert q * size <= h;
    assert q >= keyHeads ==> q * size >= keyHeads * size;
  }

  // ---- The real step ----------------------------------------------------------------------------

  /** Where head `h` finds its key element `k`: neighbouring heads share one key head. */
  function KeyIndex(heads: nat, keyHeads: nat, keys: nat, h: nat, k: nat): (i: nat)
    requires h < heads && k < keys && 0 < keyHeads && heads % keyHeads == 0
    ensures i < keyHeads * keys
  {
    GroupOfHead(h, heads, keyHeads);
    FlatIndex(h / (heads / keyHeads), keyHeads, k, keys);
    h / (heads / keyHeads) * keys + k
  }

  function DeltaIndex(heads: nat, values: nat, h: nat, v: nat): (i: nat)
    requires h < heads && v < values
    ensures i < heads * values
  {
    FlatIndex(h, heads, v, values);
    h * values + v
  }

  /** One matrix cell after a token: decay the old value and add key times delta. */
  function SteppedCell(g: Geometry, s: State, u: Update, h: nat, v: nat, k: nat): (x: real)
    requires g.Recurrent? && g.Valid() && StateFits(g, s) && UpdateFits(g, u)
    requires h < g.heads && v < g.values && k < g.keys
  {
    s.m[h][v][k] * u.decay[h]
    + u.key[KeyIndex(g.heads, g.keyHeads, g.keys, h, k)] * u.delta[DeltaIndex(g.heads, g.values, h, v)]
  }

  /** The state after one token with update `u`. */
  function Stepped(g: Geometry, s: State, u: Update): (r: State)
    requires g.Valid() && StateFits(g, s) && UpdateFits(g, u)
    ensures StateFits(g, r)
  {
    match g
    case Recurrent(heads, _, values, keys) =>
      Matrix(seq(heads, h requires 0 <= h < heads =>
        seq(values, v requires 0 <= v < values =>
          seq(keys, k requires 0 <= k < keys => SteppedCell(g, s, u, h, v, k)))))
    case Conv(channels, _) =>
      Window(seq(channels, c requires 0 <= c < channels => (s.w[c] + [u.values[c]])[1..]))
  }

  /** Rows laid out one after the other. */
  function Flat(rows: seq<seq<real>>): (data: seq<real>) {
    if rows == [] then [] else Flat(rows[..|rows| - 1]) + rows[|rows| - 1]
  }

  ghost predicate AllWide(rows: seq<seq<real>>, width: nat) {
    forall i {:trigger rows[i]} :: 0 <= i < |rows| ==> |rows[i]| == width
  }

  lemma {:induction false} FlatAt(rows: seq<seq<real>>, width: nat, i: nat, j: nat)
    requires AllWide(rows, width)
    ensures |Flat(rows)| == |rows| * width
    ensures i < |rows| && j < width ==> i * width + j < |Flat(rows)| && Flat(rows)[i * width + j] == rows[i][j]
    decreases |rows|
  {
    if rows != [] {
      var n := |rows| - 1;
      FlatAt(rows[..n], width, i, j);
      assert n * width + width == |rows| * width;
      if i < n && j < width {
        FlatIndex(i, n, j, width);
        assert rows[..n][i] == rows[i];
      }
    }
  }

  /** The key head of head `h`: the heads come in `keyHeads` runs of neighbours of one size. */
  ghost predicate KeyHeadOf(heads: nat, keyHeads: nat, h: nat, keyHead: nat) {
    exists size: nat :: keyHeads * size == heads && keyHead * size <= h < keyHead * size + size
  }

  lemma {:induction false} KeyHeadIs(heads: nat, keyHeads: nat, keys: nat, h: nat, k: nat, keyHead: nat)
    requires h < heads && k < keys && 0 < keyHeads && heads % keyHeads == 0 && KeyHeadOf(heads, keyHeads, h, keyHead)
    ensures keyHead < keyHeads && KeyIndex(heads, keyHeads, keys, h, k) == keyHead * keys + k
  {
    var size: nat :| keyHeads * size == heads && keyHead * size <= h < keyHead * size + size;
    ExactMultiple(heads, keyHeads, size);
    QuotientIs(h, size, keyHead);
    GroupOfHead(h, heads, keyHeads);
  }

  lemma {:induction false} QuotientIs(h: nat, size: nat, q: nat)
    requires q * size <= h < q * size + size
    ensures h / size == q
  {
    var d := h / size - q;
    assert h == h / size * size + h % size;
    assert d * size == h - h % size - q * size;
    assert d >= 1 ==> d * size >= size;
    assert d <= -1 ==> d * size <= -1 * (size as int);
  }

  /**
   What a token does to a recurrent state: every cell decays with its head and gains the element of
   its head's key row times the element of its value row.
   */
  lemma {:induction false} RecurrentStep(
    g: Geometry, s: State, u: Update, keyRows: seq<seq<real>>, deltaRows: seq<seq<real>>,
    h: nat, v: nat, k: nat, keyHead: nat)
    requires g.Recurrent? && g.Valid() && StateFits(g, s) && UpdateFits(g, u)
    requires |keyRows| == g.keyHeads && AllWide(keyRows, g.keys) && u.key == Flat(keyRows)
    requires |deltaRows| == g.heads && AllWide(deltaRows, g.values) && u.delta == Flat(deltaRows)
    requires h < g.heads && v < g.values && k < g.keys && KeyHeadOf(g.heads, g.keyHeads, h, keyHead)
    ensures keyHead < g.keyHeads
    ensures Stepped(g, s, u).m[h][v][k] == s.m[h][v][k] * u.decay[h] + keyRows[keyHead][k] * deltaRows[h][v]
  {
    KeyHeadIs(g.heads, g.keyHeads, g.keys, h, k, keyHead);
    FlatAt(keyRows, g.keys, keyHead, k);
    FlatAt(deltaRows, g.values, h, v);
  }

  /** What a token does to a convolution window: the oldest sample of each channel leaves, the new one enters. */
  lemma {:induction false} WindowStep(g: Geometry, s: State, u: Update, c: nat, i: nat)
    requires g.Conv? && g.Valid() && StateFits(g, s) && UpdateFits(g, u) && c < g.channels && i < g.width
    ensures Stepped(g, s, u).w[c][i] == if i == g.width - 1 then u.values[c] else s.w[c][i + 1]
  {
  }

  // ---- What a capture holds ---------------------------------------------------------------------

  function Zeros(n: nat): (z: seq<real>)
    ensures |z| == n && forall i :: 0 <= i < n ==> z[i] == 0.0
  {
    seq(n, _ => 0.0)
  }

  /** `capacity` slots of `width` numbers, the given rows first and zeros after them. */
  function Slots(capacity: nat, width: nat, rows: seq<seq<real>>): (r: seq<real>)
    requires forall i :: 0 <= i < |rows| ==> |rows[i]| == width
    ensures |r| == capacity * width
    decreases capacity
  {
    if capacity == 0 then []
    else if rows == [] then Zeros(width) + Slots(capacity - 1, width, [])
    else rows[0] + Slots(capacity - 1, width, rows[1..])
  }

  /**
   The buffer after capturing the updates of the first tokens of a chunk: three sections of
   `capacity` slots (decays, keys, deltas), or `capacity` sample rows.
   */
  function Captured(g: Geometry, capacity: nat, us: seq<Update>): (capture: Capture)
    requires AllFit(g, us)
  {
    match g
    case Recurrent(heads, keyHeads, values, keys) =>
      Capsule(
        Slots(capacity, heads, Decays(g, us))
        + Slots(capacity, keyHeads * keys, KeyRows(g, us))
        + Slots(capacity, heads * values, Deltas(g, us)))
    case Conv(channels, _) =>
      Rows(seq(capacity, i requires 0 <= i => if i < |us| then SampleRow(g, us, i) else Zeros(channels)))
  }

  function Decays(g: Geometry, us: seq<Update>): (r: seq<seq<real>>)
    requires AllFit(g, us) && g.Recurrent?
    ensures |r| == |us| && forall i :: 0 <= i < |us| ==> r[i] == us[i].decay && |r[i]| == g.heads
  {
    seq(|us|, i requires 0 <= i < |us| => us[i].decay)
  }

  function KeyRows(g: Geometry, us: seq<Update>): (r: seq<seq<real>>)
    requires AllFit(g, us) && g.Recurrent?
    ensures |r| == |us| && forall i :: 0 <= i < |us| ==> r[i] == us[i].key && |r[i]| == g.keyHeads * g.keys
  {
    seq(|us|, i requires 0 <= i < |us| => us[i].key)
  }

  function Deltas(g: Geometry, us: seq<Update>): (r: seq<seq<real>>)
    requires AllFit(g, us) && g.Recurrent?
    ensures |r| == |us| && forall i :: 0 <= i < |us| ==> r[i] == us[i].delta && |r[i]| == g.heads * g.values
  {
    seq(|us|, i requires 0 <= i < |us| => us[i].delta)
  }

  function SampleRow(g: Geometry, us: seq<Update>, i: nat): (sample: seq<real>)
    requires AllFit(g, us) && g.Conv? && i < |us|
  {
    us[i].values
  }

  lemma {:induction false} FirstSlot(capacity: nat, width: nat, rows: seq<seq<real>>)
    requires forall i :: 0 <= i < |rows| ==> |rows[i]| == width
    requires capacity > 0 && rows != []
    ensures width <= |Slots(capacity, width, rows)| && Slots(capacity, width, rows)[..width] == rows[0]
  {
  }

  // ---- The replay graph -------------------------------------------------------------------------

  /** Recover the key sections of a capsule of the given width, or reject the export. */
  function KeyElements(width: nat, capacity: nat, heads: nat, values: nat, keys: nat): (elements: Option<nat>) {
    if capacity == 0 || heads == 0 || values == 0 || keys == 0 || width % capacity != 0 then None
    else
      var elements := width / capacity - heads - heads * values;
      if elements <= 0 || elements % keys != 0 then None
      else
        var keyHeads := elements / keys;
        if keyHeads == 0 || heads % keyHeads != 0 || keys > 256 then None else Some(elements)
  }

  lemma {:induction false} SmallMultiple(c: nat, d: int, r: nat)
    requires c * d == r && r < c
    ensures d == 0
  {
    assert d >= 1 ==> c * d >= c;
    assert d <= -1 ==> c * d <= -1 * (c as int);
  }

  lemma {:induction false} ExactMultiple(width: nat, capacity: nat, elements: nat)
    requires capacity > 0 && width == capacity * elements
    ensures width % capacity == 0 && width / capacity == elements
  {
    var q, r := width / capacity, width % capacity;
    assert width == capacity * q + r;
    assert capacity * (elements - q) == r;
    SmallMultiple(capacity, elements - q, r);
  }

  /** An export is accepted exactly when its capsule width is that of a valid head geometry. */
  lemma {:induction false} AcceptedGeometry(width: nat, capacity: nat, heads: nat, values: nat, keys: nat)
    requires capacity > 0 && heads > 0 && values > 0 && keys > 0
    ensures KeyElements(width, capacity, heads, values, keys).Some? <==>
            exists keyHeads: nat :: WidthOf(width, capacity, Recurrent(heads, keyHeads, values, keys))
    ensures forall keyHeads: nat :: WidthOf(width, capacity, Recurrent(heads, keyHeads, values, keys)) ==>
              KeyElements(width, capacity, heads, values, keys) == Some(keyHeads * keys)
  {
    forall keyHeads: nat | WidthOf(width, capacity, Recurrent(heads, keyHeads, values, keys))
      ensures KeyElements(width, capacity, heads, values, keys) == Some(keyHeads * keys)
    {
      ExactMultiple(width, capacity, heads + keyHeads * keys + heads * values);
      ExactMultiple(keyHeads * keys, keys, keyHeads);
      assert keyHeads * keys > 0;
    }
    if KeyElements(width, capacity, heads, values, keys).Some? {
      var elements := width / capacity - heads - heads * values;
      var keyHeads := elements / keys;
      assert elements == keyHeads * keys;
      assert width == capacity * (width / capacity);
      assert WidthOf(width, capacity, Recurrent(heads, keyHeads, values, keys));
    }
  }

  /** A head geometry is valid if the key heads divide the heads and a key has at most 256 elements. */
  lemma {:induction false} WidthMeans(width: nat, capacity: nat, heads: nat, keyHeads: nat, values: nat, keys: nat)
    requires heads > 0 && values > 0 && keys > 0
    ensures WidthOf(width, capacity, Recurrent(heads, keyHeads, values, keys)) <==>
            && 0 < keyHeads && heads % keyHeads == 0 && keys <= 256
            && width == capacity * (heads + keyHeads * keys + heads * values)
  {
  }

  ghost predicate WidthOf(width: nat, capacity: nat, g: Geometry) {
    g.Recurrent? && g.Valid() && width == capacity * (g.heads + g.keyHeads * g.keys + g.heads * g.values)
  }

  /** The linear update node: packed query, key and value rows against an initial state. */
  function LinearUpdate(
    packed: seq<real>, keyElements: nat, heads: nat, values: nat, keys: nat, initial: seq<seq<seq<real>>>)
    : (next: seq<seq<seq<real>>>)
    requires keyElements > 0 && 0 < keys && keyElements % keys == 0 && keyElements / keys > 0
    requires heads % (keyElements / keys) == 0
    requires |packed| == 2 * keyElements + heads * values
    requires StateFits(Recurrent(heads, keyElements / keys, values, keys), Matrix(initial))
  {
    var keyHeads := keyElements / keys;
    assert keyElements == keyHeads * keys;
    seq(heads, h requires 0 <= h < heads =>
      seq(values, v requires 0 <= v < values =>
        seq(keys, k requires 0 <= k < keys =>
          packed[keyElements + KeyIndex(heads, keyHeads, keys, h, k)]
          * packed[2 * keyElements + DeltaIndex(heads, values, h, v)]
          + initial[h][v][k])))
  }

  function Decayed(m: seq<seq<seq<real>>>, decay: seq<real>): (r: seq<seq<seq<real>>>)
    requires |decay| == |m|
    ensures |r| == |m|
    ensures forall h :: 0 <= h < |m| ==> |r[h]| == |m[h]|
    ensures forall h, v :: 0 <= h < |m| && 0 <= v < |m[h]| ==> |r[h][v]| == |m[h][v]|
    ensures forall h, v, k :: 0 <= h < |m| && 0 <= v < |m[h]| && 0 <= k < |m[h][v]| ==>
              r[h][v][k] == m[h][v][k] * decay[h]
  {
    seq(|m|, h requires 0 <= h < |m| =>
      seq(|m[h]|, v requires 0 <= v < |m[h]| =>
        seq(|m[h][v]|, k requires 0 <= k < |m[h][v]| => m[h][v][k] * decay[h])))
  }

  /** The replay of one recurrent state: three slices of the capsule, a product, a linear update. */
  function ReplayMatrix(capacity: nat, heads: nat, values: nat, keys: nat, m: seq<seq<seq<real>>>, capsule: seq<real>)
    : (next: Option<State>)
    requires StateFits(Recurrent(heads, 1, values, keys), Matrix(m))
  {
    match KeyElements(|capsule|, capacity, heads, values, keys)
    case None => None
    case Some(elements) =>
      var decay := Slice(capsule, 0, heads);
      var keyOffset := capacity * heads;
      var key := Slice(capsule, keyOffset, keyOffset + elements);
      var deltaOffset := keyOffset + capacity * elements;
      var delta := Slice(capsule, deltaOffset, deltaOffset + heads * values);
      if |decay| == heads && |key| == elements && |delta| == heads * values then
        Some(Matrix(LinearUpdate(Zeros(elements) + key + delta, elements, heads, values, keys, Decayed(m, decay))))
      else None
  }

  /** The replay of one convolution window: drop the oldest sample, append the captured one. */
  function ReplayWindow(capacity: nat, channels: nat, width: nat, w: seq<seq<real>>, rows: seq<seq<real>>): (next: Option<State>)
    requires StateFits(Conv(channels, width), Window(w))
  {
    if channels == 0 || capacity == 0 || |rows| != capacity || |rows[0]| != channels then None
    else if width == 0 then Some(Window(w))
    else Some(Window(seq(channels, c requires 0 <= c < channels => w[c][1..width] + [rows[0][c]])))
  }

  /** ONNX Slice on one axis with unit stride: bounds are clamped to the axis. */
  function Slice(s: seq<real>, start: nat, end: nat): (part: seq<real>) {
    var hi := if end <= |s| then end else |s|;
    if start <= hi then s[start..hi] else []
  }

  function Replay(g: Geometry, capacity: nat, s: State, c: Capture): (next: Option<State>)
    requires StateFits(g, s)
  {
    match g
    case Recurrent(heads, _, values, keys) =>
      if c.Capsule? then ReplayMatrix(capacity, heads, values, keys, s.m, c.data) else None
    case Conv(channels, width) =>
      if c.Rows? then ReplayWindow(capacity, channels, width, s.w, c.rows) else None
  }

  // ---- Replay is the first step -----------------------------------------------------------------

  /** The capsule's width and its first slices. */
  lemma {:induction false} CapsuleSlices(g: Geometry, capacity: nat, us: seq<Update>)
    requires g.Recurrent? && g.Valid() && capacity > 0 && us != [] && AllFit(g, us)
    ensures var capsule, elements, deltas := Captured(g, capacity, us).data, g.keyHeads * g.keys, g.heads * g.values;
            var key, delta := capacity * g.heads, capacity * g.heads + capacity * elements;
            && |capsule| == capacity * (g.heads + elements + deltas)
            && Slice(capsule, 0, g.heads) == us[0].decay
            && Slice(capsule, key, key + elements) == us[0].key
            && Slice(capsule, delta, delta + deltas) == us[0].delta
  {
    var elements, deltas := g.keyHeads * g.keys, g.heads * g.values;
    var a, b, d := Slots(capacity, g.heads, Decays(g, us)), Slots(capacity, elements, KeyRows(g, us)),
                   Slots(capacity, deltas, Deltas(g, us));
    assert capacity * (g.heads + elements + deltas) == capacity * g.heads + capacity * elements + capacity * deltas;
    assert [] + a + (b + d) == a + b + d == a + b + d + [];
    FirstSlot(capacity, g.heads, Decays(g, us));
    FirstSlot(capacity, elements, KeyRows(g, us));
    FirstSlot(capacity, deltas, Deltas(g, us));
    SliceOfSection([], a, b + d, g.heads);
    SliceOfSection(a, b, d, elements);
    SliceOfSection(a + b, d, [], deltas);
  }

  lemma {:induction false} ReplayMatrixIsStep(g: Geometry, capacity: nat, s: State, us: seq<Update>)
    requires g.Recurrent? && g.Valid() && capacity > 0 && StateFits(g, s) && us != []
    requires AllFit(g, us)
    ensures Replay(g, capacity, s, Captured(g, capacity, us)) == Some(Stepped(g, s, us[0]))
  {
    var capsule, elements := Captured(g, capacity, us).data, g.keyHeads * g.keys;
    CapsuleSlices(g, capacity, us);
    AcceptedGeometry(|capsule|, capacity, g.heads, g.values, g.keys);
    assert WidthOf(|capsule|, capacity, g);
    UpdateOfSlices(g, s, us[0], elements);
  }

  lemma {:induction false} SliceOfSection(before: seq<real>, section: seq<real>, behind: seq<real>, n: nat)
    requires n <= |section|
    ensures Slice(before + section + behind, |before|, |before| + n) == section[..n]
  {
  }

  lemma {:induction false} PackedAt(elements: nat, key: seq<real>, delta: seq<real>, a: nat, b: nat)
    requires |key| == elements && a < |key| && b < |delta|
    ensures elements + a < |Zeros(elements) + key + delta| && 2 * elements + b < |Zeros(elements) + key + delta|
    ensures (Zeros(elements) + key + delta)[elements + a] == key[a]
    ensures (Zeros(elements) + key + delta)[2 * elements + b] == delta[b]
  {
  }

  lemma {:induction false} CellOfSlices(g: Geometry, s: State, u: Update, elements: nat, h: nat, v: nat, k: nat)
    requires g.Recurrent? && g.Valid() && StateFits(g, s) && UpdateFits(g, u)
    requires elements == |u.key| && h < g.heads && v < g.values && k < g.keys
    ensures var a, b := KeyIndex(g.heads, g.keyHeads, g.keys, h, k), DeltaIndex(g.heads, g.values, h, v);
            var packed := Zeros(elements) + u.key + u.delta;
            && elements + a < |packed| && 2 * elements + b < |packed|
            && packed[elements + a] * packed[2 * elements + b] + Decayed(s.m, u.decay)[h][v][k]
               == SteppedCell(g, s, u, h, v, k)
  {
    PackedAt(elements, u.key, u.delta,
             KeyIndex(g.heads, g.keyHeads, g.keys, h, k), DeltaIndex(g.heads, g.values, h, v));
  }

  lemma {:induction false} UpdateOfSlices(g: Geometry, s: State, u: Update, elements: nat)
    requires g.Recurrent? && g.Valid() && StateFits(g, s) && UpdateFits(g, u)
    requires elements == g.keyHeads * g.keys
    ensures elements > 0 && elements % g.keys == 0 && elements / g.keys == g.keyHeads
    ensures Matrix(LinearUpdate(Zeros(elements) + u.key + u.delta, elements, g.heads, g.values, g.keys,
                                Decayed(s.m, u.decay)))
         == Stepped(g, s, u)
  {
    ExactMultiple(elements, g.keys, g.keyHeads);
    assert elements > 0;
    var packed := Zeros(elements) + u.key + u.delta;
    var r := LinearUpdate(packed, elements, g.heads, g.values, g.keys, Decayed(s.m, u.decay));
    var t := Stepped(g, s, u).m;
    forall h | 0 <= h < g.heads ensures r[h] == t[h] {
      forall v | 0 <= v < g.values ensures r[h][v] == t[h][v] {
        forall k | 0 <= k < g.keys ensures r[h][v][k] == t[h][v][k] {
          CellOfSlices(g, s, u, elements, h, v, k);
        }
      }
    }
  }

  /** From a checkpoint, replaying a capture equals taking the first captured step for real. */
  lemma {:induction false} ReplayIsFirstStep(g: Geometry, capacity: nat, s: State, us: seq<Update>)
    requires g.Valid() && capacity > 0 && StateFits(g, s) && us != []
    requires AllFit(g, us)
    ensures Replay(g, capacity, s, Captured(g, capacity, us)) == Some(Stepped(g, s, us[0]))
  {
    match g
    case Recurrent(_, _, _, _) => ReplayMatrixIsStep(g, capacity, s, us);
    case Conv(channels, width) =>
      var stepped := Stepped(g, s, us[0]).w;
      var first := Captured(g, capacity, us).rows[0];
      assert first == us[0].values;
      if width == 0 {
        assert stepped == s.w by { forall c | 0 <= c < channels ensures stepped[c] == s.w[c] {} }
      } else {
        var shifted := seq(channels, c requires 0 <= c < channels => s.w[c][1..width] + [first[c]]);
        forall c | 0 <= c < channels ensures stepped[c] == shifted[c] {
          assert (s.w[c] + [first[c]])[1..] == s.w[c][1..width] + [first[c]];
        }
        assert stepped == shifted;
      }
  }
}
