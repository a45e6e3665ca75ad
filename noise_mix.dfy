/** Deterministic PatchMix: one quadrant of a clean C x H x W image is replaced by
    the same quadrant of a noisy image (app/augmentation/noise_mix.py).

    Arrays are values here, so neither input can be changed by the mix: the
    slices of the original are views, and the only write (the list-slot
    replacement) goes to a local list. The element type is a parameter, because
    the mix only moves elements. */
module NoiseMix {
  import opened Wrappers

  /** The exceptions the mix and its driver can raise. */
  datatype Error =
    | IndexError        // quadrant_index is not a valid index of the four-element patch list
    | ConcatenateError  // np.concatenate: the dimensions off the joined axis disagree
    | ShapeMismatch     // the driver's ValueError: clean and noisy shapes differ

  /** A C x H x W array: cells[c][i][j] is channel c, row i, column j. The
      shape is kept beside the cells, so that an array with no channels or no
      rows still has all three extents, as a NumPy array does. */
  datatype Image<T> = Image(channels: nat, height: nat, width: nat, cells: seq<seq<seq<T>>>)
  {
    predicate Valid() {
      |cells| == channels &&
      forall c :: 0 <= c < channels ==>
        |cells[c]| == height && forall i :: 0 <= i < height ==> |cells[c][i]| == width
    }

    function Shape(): (nat, nat, nat) {
      (channels, height, width)
    }
  }

  function Min(a: nat, b: nat): nat {
    if a <= b then a else b
  }

  /** Row and column where quadrant k starts, for the given cuts: 0 is the
      top-left quadrant, 1 the top-right, 2 the bottom-left, 3 the bottom-right. */
  function RowOffset(hcut: nat, k: nat): nat {
    if k < 2 then 0 else hcut
  }

  function ColOffset(wcut: nat, k: nat): nat {
    if k % 2 == 0 then 0 else wcut
  }

  /** Number of rows and columns of quadrant k of an h x w grid cut before
      row hcut and column wcut. */
  function RowSpan(hcut: nat, h: nat, k: nat): int {
    if k < 2 then hcut else h - hcut
  }

  function ColSpan(wcut: nat, w: nat, k: nat): int {
    if k % 2 == 0 then wcut else w - wcut
  }

  /** `a[:, r0:r1, c0:c1]` for bounds already clamped to the array. */
  function Window<T>(a: Image<T>, r0: nat, r1: nat, c0: nat, c1: nat): (w: Image<T>)
    requires a.Valid() && r0 <= r1 <= a.height && c0 <= c1 <= a.width
    ensures w.Valid() && w.Shape() == (a.channels, r1 - r0, c1 - c0)
    ensures forall c, i, j :: 0 <= c < w.channels && 0 <= i < w.height && 0 <= j < w.width ==>
      w.cells[c][i][j] == a.cells[c][r0 + i][c0 + j]
  {
    Image(a.channels, r1 - r0, c1 - c0,
      seq(a.channels, c requires 0 <= c < a.channels =>
        seq(r1 - r0, i requires 0 <= i < r1 - r0 => a.cells[c][r0 + i][c0..c1])))
  }

  /** The four slices `a[:, :hmid, :wmid]`, `a[:, :hmid, wmid:]`,
      `a[:, hmid:, :wmid]`, `a[:, hmid:, wmid:]`, in list order. As in Python,
      a cut beyond the end of an axis is clamped to its length, so whatever the
      cuts, the four slices tile the array: slice k covers the rows and
      columns of quadrant k for the clamped cuts. */
  function Patches<T>(a: Image<T>, hmid: nat, wmid: nat): (p: seq<Image<T>>)
    requires a.Valid()
    ensures |p| == 4
    ensures forall k | 0 <= k < 4 ::
      && p[k].Valid()
      && p[k].Shape() == (a.channels, RowSpan(Min(hmid, a.height), a.height, k), ColSpan(Min(wmid, a.width), a.width, k))
      && forall c, i, j | 0 <= c < a.channels && 0 <= i < p[k].height && 0 <= j < p[k].width ::
        && RowOffset(Min(hmid, a.height), k) + i < a.height
        && ColOffset(Min(wmid, a.width), k) + j < a.width
        && p[k].cells[c][i][j] == a.cells[c][RowOffset(Min(hmid, a.height), k) + i][ColOffset(Min(wmid, a.width), k) + j]
  {
    var hcut := Min(hmid, a.height);
    var wcut := Min(wmid, a.width);
    var p := [ Window(a, 0, hcut, 0, wcut),
               Window(a, 0, hcut, wcut, a.width),
               Window(a, hcut, a.height, 0, wcut),
               Window(a, hcut, a.height, wcut, a.width) ];
    WindowsTile(a, hcut, wcut, p);
    p
  }

  /** The four windows of Patches, one quadrant at a time. */
  lemma WindowsTile<T>(a: Image<T>, hcut: nat, wcut: nat, p: seq<Image<T>>)
    requires a.Valid() && hcut <= a.height && wcut <= a.width
    requires p == [ Window(a, 0, hcut, 0, wcut), Window(a, 0, hcut, wcut, a.width),
                    Window(a, hcut, a.height, 0, wcut), Window(a, hcut, a.height, wcut, a.width) ]
    ensures forall k | 0 <= k < 4 ::
      && p[k].Valid()
      && p[k].Shape() == (a.channels, RowSpan(hcut, a.height, k), ColSpan(wcut, a.width, k))
      && forall c, i, j | 0 <= c < a.channels && 0 <= i < p[k].height && 0 <= j < p[k].width ::
        && RowOffset(hcut, k) + i < a.height
        && ColOffset(wcut, k) + j < a.width
        && p[k].cells[c][i][j] == a.cells[c][RowOffset(hcut, k) + i][ColOffset(wcut, k) + j]
  {
    forall k | 0 <= k < 4
      ensures p[k] == Window(a, RowOffset(hcut, k), RowOffset(hcut, k) + RowSpan(hcut, a.height, k),
                             ColOffset(wcut, k), ColOffset(wcut, k) + ColSpan(wcut, a.width, k))
    {
    }
  }

  /** `np.concatenate([a, b], axis=2)`: b to the right of a. NumPy refuses
      the join unless the channel and row extents agree. */
  function ConcatColumns<T>(a: Image<T>, b: Image<T>): (r: Result<Image<T>, Error>)
    requires a.Valid() && b.Valid()
    ensures r.Ok? <==> a.channels == b.channels && a.height == b.height
    ensures r.Err? ==> r.error == ConcatenateError
    ensures r.Ok? ==> r.value.Valid() && r.value.Shape() == (a.channels, a.height, a.width + b.width)
    ensures r.Ok? ==> forall c, i, j :: 0 <= c < a.channels && 0 <= i < a.height && 0 <= j < a.width + b.width ==>
      r.value.cells[c][i][j] == if j < a.width then a.cells[c][i][j] else b.cells[c][i][j - a.width]
  {
    if a.channels == b.channels && a.height == b.height then
      Ok(Image(a.channels, a.height, a.width + b.width,
        seq(a.channels, c requires 0 <= c < a.channels =>
          seq(a.height, i requires 0 <= i < a.height => a.cells[c][i] + b.cells[c][i]))))
    else
      Err(ConcatenateError)
  }

  /** `np.concatenate([a, b], axis=1)`: b below a. NumPy refuses the join
      unless the channel and column extents agree. */
  function ConcatRows<T>(a: Image<T>, b: Image<T>): (r: Result<Image<T>, Error>)
    requires a.Valid() && b.Valid()
    ensures r.Ok? <==> a.channels == b.channels && a.width == b.width
    ensures r.Err? ==> r.error == ConcatenateError
    ensures r.Ok? ==> r.value.Valid() && r.value.Shape() == (a.channels, a.height + b.height, a.width)
    ensures r.Ok? ==> forall c, i, j :: 0 <= c < a.channels && 0 <= i < a.height + b.height && 0 <= j < a.width ==>
      r.value.cells[c][i][j] == if i < a.height then a.cells[c][i][j] else b.cells[c][i - a.height][j]
  {
    if a.channels == b.channels && a.width == b.width then
      Ok(Image(a.channels, a.height + b.height, a.width,
        seq(a.channels, c requires 0 <= c < a.channels => a.cells[c] + b.cells[c])))
    else
      Err(ConcatenateError)
  }

  /** The slot that `patches[q]` designates in a Python list of n elements:
      negative indices count from the end; anything else raises IndexError. */
  function PyIndex(q: int, n: nat): (k: Option<nat>)
    ensures k.Some? <==> -(n as int) <= q < n
    ensures k.Some? ==> k.value < n && (k.value == q || k.value == q + n)
  {
    if 0 <= q < n then Some(q)
    else if -(n as int) <= q < 0 then Some(q + n)
    else None
  }

  /** The clean patches with slot k replaced by the noisy patch k. Both images
      are cut at clean's halves, so the three clean pieces have clean's
      quadrant extents, while the noisy piece has the extents of noisy's slice
      at those cuts, clamped to noisy's own extents. */
  function Pieces<T>(clean: Image<T>, noisy: Image<T>, k: nat): (p: seq<Image<T>>)
    requires clean.Valid() && noisy.Valid() && k < 4
    ensures |p| == 4 && forall m :: 0 <= m < 4 ==> p[m].Valid()
    ensures forall m :: 0 <= m < 4 && m != k ==>
      p[m].Shape() == (clean.channels, RowSpan(clean.height / 2, clean.height, m), ColSpan(clean.width / 2, clean.width, m))
    ensures p[k].Shape() == (noisy.channels,
      RowSpan(Min(clean.height / 2, noisy.height), noisy.height, k),
      ColSpan(Min(clean.width / 2, noisy.width), noisy.width, k))
  {
    Patches(clean, clean.height / 2, clean.width / 2)[k := Patches(noisy, clean.height / 2, clean.width / 2)[k]]
  }

  /** Top = patches 0 and 1 side by side, bottom = patches 2 and 3, then top
      over bottom. The three joins go through exactly when all four pieces
      have one channel count, the two top pieces one height, the two bottom
      pieces one height, and the top row of pieces the width of the bottom row. */
  function Assemble<T>(p: seq<Image<T>>): (r: Result<Image<T>, Error>)
    requires |p| == 4 && forall m :: 0 <= m < 4 ==> p[m].Valid()
    ensures r.Ok? <==>
      p[0].channels == p[1].channels == p[2].channels == p[3].channels &&
      p[0].height == p[1].height && p[2].height == p[3].height &&
      p[0].width + p[1].width == p[2].width + p[3].width
    ensures r.Err? ==> r.error == ConcatenateError
    ensures r.Ok? ==>
      r.value.Valid() && r.value.Shape() == (p[0].channels, p[0].height + p[2].height, p[0].width + p[1].width)
  {
    var top :- ConcatColumns(p[0], p[1]);
    var bottom :- ConcatColumns(p[2], p[3]);
    ConcatRows(top, bottom)
  }

  /** The quadrant of cell (i, j) when the rows are cut before hcut and the
      columns before wcut: 0 top-left, 1 top-right, 2 bottom-left, 3 bottom-right. */
  function QuadrantAt(hcut: nat, wcut: nat, i: nat, j: nat): (q: nat)
    ensures q < 4
  {
    (if i < hcut then 0 else 2) + (if j < wcut then 0 else 1)
  }

  /** The quadrant a cell (i, j) of an h x w grid lies in, cutting at h / 2 and w / 2. */
  function CellQuadrant(h: nat, w: nat, i: nat, j: nat): (q: nat)
    ensures q < 4
  {
    QuadrantAt(h / 2, w / 2, i, j)
  }

  /** The noisy shapes for which the mix with quadrant k goes through: the
      channel counts agree, and along each axis the noisy array either reaches
      the cut (when its slice starts at 0) or has the clean extent (when its
      slice runs from the cut to the end). */
  predicate NoisyFits<T>(clean: Image<T>, noisy: Image<T>, k: nat) {
    FitsAt(clean, noisy, k, clean.height / 2, clean.width / 2)
  }

  /** The same condition for cuts before row hcut and column wcut. */
  predicate FitsAt<T>(clean: Image<T>, noisy: Image<T>, k: nat, hcut: nat, wcut: nat) {
    noisy.channels == clean.channels &&
    (if k < 2 then hcut <= noisy.height else noisy.height == clean.height) &&
    (if k % 2 == 0 then wcut <= noisy.width else noisy.width == clean.width)
  }

  /** The cell-by-cell description of the mix: cells of quadrant k from noisy,
      every other cell from clean. */
  ghost predicate MixedFrom<T>(r: Image<T>, clean: Image<T>, noisy: Image<T>, k: nat)
    requires r.Valid() && clean.Valid() && noisy.Valid() && NoisyFits(clean, noisy, k)
    requires r.Shape() == clean.Shape()
  {
    forall c, i, j :: 0 <= c < r.channels && 0 <= i < r.height && 0 <= j < r.width ==>
      r.cells[c][i][j] ==
        if CellQuadrant(r.height, r.width, i, j) == k then noisy.cells[c][i][j] else clean.cells[c][i][j]
  }

  /** Cutting at H // 2 and W // 2 partitions each axis: rows [0, H // 2) are
      the top and [H // 2, H) the bottom, columns [0, W // 2) the left and
      [W // 2, W) the right, and an odd extra row or column goes to the bottom
      or the right. Patch k has the extents of quadrant k. */
  lemma QuadrantPartition<T>(a: Image<T>)
    requires a.Valid()
    ensures forall k :: 0 <= k < 4 ==>
      Patches(a, a.height / 2, a.width / 2)[k].Shape() ==
        (a.channels, RowSpan(a.height / 2, a.height, k), ColSpan(a.width / 2, a.width, k))
    ensures RowSpan(a.height / 2, a.height, 0) + RowSpan(a.height / 2, a.height, 2) == a.height
    ensures ColSpan(a.width / 2, a.width, 0) + ColSpan(a.width / 2, a.width, 1) == a.width
    ensures RowSpan(a.height / 2, a.height, 2) - RowSpan(a.height / 2, a.height, 0) == a.height % 2
    ensures ColSpan(a.width / 2, a.width, 1) - ColSpan(a.width / 2, a.width, 0) == a.width % 2
  {
  }

  /** Patch k holds exactly the cells of quadrant k, each at its own place in the grid. */
  lemma QuadrantCells<T>(a: Image<T>, k: nat, c: nat, i: nat, j: nat)
    requires a.Valid() && k < 4 && c < a.channels
    requires i < RowSpan(a.height / 2, a.height, k) && j < ColSpan(a.width / 2, a.width, k)
    ensures RowOffset(a.height / 2, k) + i < a.height && ColOffset(a.width / 2, k) + j < a.width
    ensures Patches(a, a.height / 2, a.width / 2)[k].cells[c][i][j] ==
      a.cells[c][RowOffset(a.height / 2, k) + i][ColOffset(a.width / 2, k) + j]
    ensures CellQuadrant(a.height, a.width, RowOffset(a.height / 2, k) + i, ColOffset(a.width / 2, k) + j) == k
  {
  }

  /** Four pieces with the quadrant shapes of clean for the cuts hcut and
      wcut, piece k taken from noisy and the others from clean, each at its
      quadrant's place. */
  ghost predicate PiecesLookLike<T>(p: seq<Image<T>>, clean: Image<T>, noisy: Image<T>, k: nat, hcut: nat, wcut: nat)
    requires clean.Valid() && noisy.Valid() && k < 4
    requires hcut <= clean.height && wcut <= clean.width && FitsAt(clean, noisy, k, hcut, wcut)
  {
    |p| == 4 &&
    (forall m | 0 <= m < 4 ::
      && p[m].Valid()
      && p[m].Shape() == (clean.channels, RowSpan(hcut, clean.height, m), ColSpan(wcut, clean.width, m))) &&
    forall m, c, i, j :: 0 <= m < 4 && 0 <= c < clean.channels && 0 <= i < p[m].height && 0 <= j < p[m].width ==>
      p[m].cells[c][i][j] ==
        (if m == k then noisy else clean).cells[c][RowOffset(hcut, m) + i][ColOffset(wcut, m) + j]
  }

  /** One cell of piece m: it comes from noisy for the replaced slot and from
      clean otherwise, at the same place in the full grid. */
  lemma PieceCell<T>(clean: Image<T>, noisy: Image<T>, k: nat, m: nat, c: nat, i: nat, j: nat)
    requires clean.Valid() && noisy.Valid() && k < 4 && NoisyFits(clean, noisy, k) && m < 4
    requires c < clean.channels && i < RowSpan(clean.height / 2, clean.height, m) && j < ColSpan(clean.width / 2, clean.width, m)
    ensures Pieces(clean, noisy, k)[m].Shape() ==
      (clean.channels, RowSpan(clean.height / 2, clean.height, m), ColSpan(clean.width / 2, clean.width, m))
    ensures Pieces(clean, noisy, k)[m].cells[c][i][j] ==
      (if m == k then noisy else clean).cells[c][RowOffset(clean.height / 2, m) + i][ColOffset(clean.width / 2, m) + j]
  {
    if m != k {
      QuadrantCells(clean, m, c, i, j);
    }
  }

  /** Shape and provenance of all four pieces handed to the reassembly. */
  lemma PiecesAt<T>(clean: Image<T>, noisy: Image<T>, k: nat)
    requires clean.Valid() && noisy.Valid() && k < 4 && NoisyFits(clean, noisy, k)
    ensures PiecesLookLike(Pieces(clean, noisy, k), clean, noisy, k, clean.height / 2, clean.width / 2)
  {
    var p := Pieces(clean, noisy, k);
    forall m | 0 <= m < 4
      ensures p[m].Shape() == (clean.channels, RowSpan(clean.height / 2, clean.height, m), ColSpan(clean.width / 2, clean.width, m))
    {
    }
    forall m, c, i, j | 0 <= m < 4 && 0 <= c < clean.channels && 0 <= i < p[m].height && 0 <= j < p[m].width
      ensures p[m].cells[c][i][j] ==
        (if m == k then noisy else clean).cells[c][RowOffset(clean.height / 2, m) + i][ColOffset(clean.width / 2, m) + j]
    {
      PieceCell(clean, noisy, k, m, c, i, j);
    }
  }

  /** Each reassembled cell is the matching cell of the piece that covers it. */
  lemma AssembleCell<T>(p: seq<Image<T>>, ch: nat, h0: nat, h1: nat, w0: nat, w1: nat, c: nat, i: nat, j: nat)
    requires |p| == 4 && forall m :: 0 <= m < 4 ==> p[m].Valid()
    requires p[0].Shape() == (ch, h0, w0) && p[1].Shape() == (ch, h0, w1)
    requires p[2].Shape() == (ch, h1, w0) && p[3].Shape() == (ch, h1, w1)
    requires c < ch && i < h0 + h1 && j < w0 + w1
    ensures Assemble(p).Ok? && Assemble(p).value.Shape() == (ch, h0 + h1, w0 + w1)
    ensures var m := QuadrantAt(h0, w0, i, j);
      RowOffset(h0, m) <= i && ColOffset(w0, m) <= j &&
      Assemble(p).value.cells[c][i][j] == p[m].cells[c][i - RowOffset(h0, m)][j - ColOffset(w0, m)]
  {
    var top := ConcatColumns(p[0], p[1]).value;
    var bottom := ConcatColumns(p[2], p[3]).value;
    var r := ConcatRows(top, bottom).value;
    assert Assemble(p) == Ok(r);
    if i < h0 {
      assert r.cells[c][i][j] == top.cells[c][i][j];
    } else {
      assert r.cells[c][i][j] == bottom.cells[c][i - h0][j];
    }
  }

  /** One cell of the reassembly of such pieces. */
  lemma MixCell<T>(p: seq<Image<T>>, clean: Image<T>, noisy: Image<T>, k: nat, hcut: nat, wcut: nat, c: nat, i: nat, j: nat)
    requires clean.Valid() && noisy.Valid() && k < 4
    requires hcut <= clean.height && wcut <= clean.width && FitsAt(clean, noisy, k, hcut, wcut)
    requires PiecesLookLike(p, clean, noisy, k, hcut, wcut)
    requires c < clean.channels && i < clean.height && j < clean.width
    ensures Assemble(p).Ok?
    ensures Assemble(p).value.Shape() == clean.Shape()
    ensures Assemble(p).value.cells[c][i][j] ==
      if QuadrantAt(hcut, wcut, i, j) == k then noisy.cells[c][i][j] else clean.cells[c][i][j]
  {
    var H, W := clean.height, clean.width;
    var m := QuadrantAt(hcut, wcut, i, j);
    AssembleCell(p, clean.channels, hcut, H - hcut, wcut, W - wcut, c, i, j);
    var i', j' := i - RowOffset(hcut, m), j - ColOffset(wcut, m);
    assert RowOffset(hcut, m) + i' == i && ColOffset(wcut, m) + j' == j;
  }

  /** Reassembling the pieces for quadrant k succeeds exactly when noisy fits
      that quadrant, and then gives clean's shape with quadrant k taken from
      noisy and the other three from clean. */
  lemma PiecesAssemble<T>(clean: Image<T>, noisy: Image<T>, k: nat)
    requires clean.Valid() && noisy.Valid() && k < 4
    ensures Assemble(Pieces(clean, noisy, k)).Ok? <==> NoisyFits(clean, noisy, k)
    ensures NoisyFits(clean, noisy, k) ==>
      Assemble(Pieces(clean, noisy, k)).value.Shape() == clean.Shape() &&
      MixedFrom(Assemble(Pieces(clean, noisy, k)).value, clean, noisy, k)
  {
    PiecesJoin(clean, noisy, k);
    if NoisyFits(clean, noisy, k) {
      FittingMix(clean, noisy, k);
    }
  }

  /** The reassembly when noisy fits: clean's shape, quadrant k from noisy. */
  lemma FittingMix<T>(clean: Image<T>, noisy: Image<T>, k: nat)
    requires clean.Valid() && noisy.Valid() && k < 4 && NoisyFits(clean, noisy, k)
    ensures Assemble(Pieces(clean, noisy, k)).Ok?
    ensures Assemble(Pieces(clean, noisy, k)).value.Shape() == clean.Shape()
    ensures MixedFrom(Assemble(Pieces(clean, noisy, k)).value, clean, noisy, k)
  {
    PiecesAt(clean, noisy, k);
    LookAlikeMix(Pieces(clean, noisy, k), clean, noisy, k);
  }

  /** The reassembly of any four pieces that look like the pieces for quadrant k. */
  lemma LookAlikeMix<T>(p: seq<Image<T>>, clean: Image<T>, noisy: Image<T>, k: nat)
    requires clean.Valid() && noisy.Valid() && k < 4 && NoisyFits(clean, noisy, k)
    requires PiecesLookLike(p, clean, noisy, k, clean.height / 2, clean.width / 2)
    ensures Assemble(p).Ok?
    ensures Assemble(p).value.Shape() == clean.Shape()
    ensures MixedFrom(Assemble(p).value, clean, noisy, k)
  {
    var H, W := clean.height, clean.width;
    forall c, i, j | 0 <= c < clean.channels && 0 <= i < H && 0 <= j < W
      ensures Assemble(p).value.cells[c][i][j] ==
        if QuadrantAt(H / 2, W / 2, i, j) == k then noisy.cells[c][i][j] else clean.cells[c][i][j]
    {
      MixCell(p, clean, noisy, k, H / 2, W / 2, c, i, j);
    }
  }

  /** The pieces for quadrant k line up for the three joins exactly when
      noisy fits quadrant k. */
  lemma PiecesJoin<T>(clean: Image<T>, noisy: Image<T>, k: nat)
    requires clean.Valid() && noisy.Valid() && k < 4
    ensures Assemble(Pieces(clean, noisy, k)).Ok? <==> NoisyFits(clean, noisy, k)
  {
  }

  /** patchmix_with_fixed_quadrant(clean, noisy, quadrant_index). The mix
      succeeds exactly when the quadrant index is a valid list index and the
      noisy array fits that quadrant; a bad index raises IndexError and a
      misfit raises np.concatenate's error. On success the result has clean's
      shape, its quadrant k from noisy and the other three from clean. */
  function PatchMix<T>(clean: Image<T>, noisy: Image<T>, quadrantIndex: int): (r: Result<Image<T>, Error>)
    requires clean.Valid() && noisy.Valid()
    ensures PyIndex(quadrantIndex, 4).None? ==> r == Err(IndexError)
    ensures PyIndex(quadrantIndex, 4).Some? ==>
      (r.Ok? <==> NoisyFits(clean, noisy, PyIndex(quadrantIndex, 4).value))
    ensures PyIndex(quadrantIndex, 4).Some? && r.Err? ==> r.error == ConcatenateError
    ensures r.Ok? ==>
      && r.value.Valid()
      && r.value.Shape() == clean.Shape()
      && MixedFrom(r.value, clean, noisy, PyIndex(quadrantIndex, 4).value)
  {
    match PyIndex(quadrantIndex, 4)
    case None => Err(IndexError)
    case Some(k) =>
      PiecesAssemble(clean, noisy, k);
      Assemble(Pieces(clean, noisy, k))
  }

  /** Two well-formed images with the same shape and the same cells are equal. */
  lemma SameCellsSameImage<T>(a: Image<T>, b: Image<T>)
    requires a.Valid() && b.Valid() && a.Shape() == b.Shape()
    requires forall c, i, j :: 0 <= c < a.channels && 0 <= i < a.height && 0 <= j < a.width ==>
      a.cells[c][i][j] == b.cells[c][i][j]
    ensures a == b
  {
    forall c | 0 <= c < a.channels ensures a.cells[c] == b.cells[c] {
      forall i | 0 <= i < a.height ensures a.cells[c][i] == b.cells[c][i] {
        assert |a.cells[c][i]| == |b.cells[c][i]| == a.width;
      }
    }
    assert a.cells == b.cells;
  }

  /** An image that already holds noisy's cells in quadrant k is left as it is. */
  lemma MixFixedPoint<T>(a: Image<T>, noisy: Image<T>, q: int, k: nat)
    requires a.Valid() && noisy.Valid() && PyIndex(q, 4) == Some(k) && NoisyFits(a, noisy, k)
    requires forall c, i, j | 0 <= c < a.channels && 0 <= i < a.height && 0 <= j < a.width
      && CellQuadrant(a.height, a.width, i, j) == k :: a.cells[c][i][j] == noisy.cells[c][i][j]
    ensures PatchMix(a, noisy, q) == Ok(a)
  {
    var r := PatchMix(a, noisy, q).value;
    forall c, i, j | 0 <= c < a.channels && 0 <= i < a.height && 0 <= j < a.width
      ensures r.cells[c][i][j] == a.cells[c][i][j]
    {
      if CellQuadrant(a.height, a.width, i, j) == k {
        assert r.cells[c][i][j] == noisy.cells[c][i][j];
      }
    }
    SameCellsSameImage(r, a);
  }

  /** Mixing an image with itself gives it back, whatever the quadrant. */
  lemma MixWithItself<T>(a: Image<T>, q: int)
    requires a.Valid() && -4 <= q < 4
    ensures PatchMix(a, a, q) == Ok(a)
  {
    var k := PyIndex(q, 4).value;
    assert NoisyFits(a, a, k);
    MixFixedPoint(a, a, q, k);
  }

  /** Mixing the same noisy quadrant into the result a second time changes nothing. */
  lemma MixIdempotent<T>(clean: Image<T>, noisy: Image<T>, q: int)
    requires clean.Valid() && noisy.Valid() && PatchMix(clean, noisy, q).Ok?
    ensures PatchMix(PatchMix(clean, noisy, q).value, noisy, q) == PatchMix(clean, noisy, q)
  {
    var k := PyIndex(q, 4).value;
    var r := PatchMix(clean, noisy, q).value;
    MixFixedPoint(r, noisy, q, k);
  }

  /** The driver's quadrant_map, in insertion order, which is the order its
      loop visits the entries in. */
  const QuadrantMap: seq<(string, nat)> :=
    [("noise_tl", 0), ("noise_tr", 1), ("noise_bl", 2), ("noise_br", 3)]

  /** The names map one-to-one onto the four quadrants in index order, and
      each name says where its quadrant is: the letter after "noise_" is 't'
      for the top half and 'b' for the bottom, the last one 'l' for the left
      half and 'r' for the right. */
  lemma QuadrantNames()
    ensures |QuadrantMap| == 4
    ensures forall n :: 0 <= n < 4 ==> QuadrantMap[n].1 == n && |QuadrantMap[n].0| == 8
    ensures forall n, m :: 0 <= n < m < 4 ==> QuadrantMap[n].0 != QuadrantMap[m].0
    ensures forall n, h: nat, w: nat, i: nat, j: nat :: 0 <= n < 4 && i < h && j < w ==>
      (CellQuadrant(h, w, i, j) == QuadrantMap[n].1 <==>
        (i < h / 2 <==> QuadrantMap[n].0[6] == 't') && (j < w / 2 <==> QuadrantMap[n].0[7] == 'l'))
  {
    forall n, m | 0 <= n < m < 4 ensures QuadrantMap[n].0 != QuadrantMap[m].0 {
      assert QuadrantMap[n].0[6..] != QuadrantMap[m].0[6..];
    }
  }

  /** One file the driver writes: its path and the array written to it. */
  datatype Output<T> = Output(path: string, image: Image<T>)

  /** An output written to `path` that holds the mix of quadrant k: clean's
      shape, quadrant k from noisy and the other cells from clean. */
  ghost predicate IsMixOutput<T>(o: Output<T>, clean: Image<T>, noisy: Image<T>, path: string, k: nat)
    requires clean.Valid() && noisy.Valid() && clean.Shape() == noisy.Shape()
  {
    && o.path == path
    && o.image.Valid()
    && o.image.Shape() == clean.Shape()
    && MixedFrom(o.image, clean, noisy, k)
  }

  /** patchmix_from_paths once both images are loaded: it refuses two shapes
      that differ, then produces one mix per entry of quadrant_map, written to
      `join(outputDir, name + ".tif")`. The writes are returned in order
      instead of being performed. */
  method PatchMixFromArrays<T>(clean: Image<T>, noisy: Image<T>, outputDir: string, join: (string, string) -> string)
    returns (r: Result<seq<Output<T>>, Error>)
    requires clean.Valid() && noisy.Valid()
    ensures r.Err? <==> clean.Shape() != noisy.Shape()
    ensures r.Err? ==> r.error == ShapeMismatch
    ensures r.Ok? ==> |r.value| == |QuadrantMap| && forall n :: 0 <= n < |r.value| ==>
      IsMixOutput(r.value[n], clean, noisy, join(outputDir, QuadrantMap[n].0 + ".tif"), QuadrantMap[n].1)
  {
    if clean.Shape() != noisy.Shape() {
      return Err(ShapeMismatch);
    }
    var written: seq<Output<T>> := [];
    for n := 0 to |QuadrantMap|
      invariant |written| == n
      invariant forall m :: 0 <= m < n ==>
        IsMixOutput(written[m], clean, noisy, join(outputDir, QuadrantMap[m].0 + ".tif"), QuadrantMap[m].1)
    {
      var (name, idx) := QuadrantMap[n];
      var hybrid := PatchMix(clean, noisy, idx);
      assert IsMixOutput(Output(join(outputDir, name + ".tif"), hybrid.value), clean, noisy, join(outputDir, name + ".tif"), idx);
      written := written + [Output(join(outputDir, name + ".tif"), hybrid.value)];
    }
    r := Ok(written);
  }
}
