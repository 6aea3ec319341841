/**
 * High-dynamic-range assembly of a frame stack: the stacked `system` dimension is split
 * recursively on its index levels (every level but `filenumber` and `exposure`), each
 * innermost group of frames is scaled by exposure and masked against the detector's
 * cutoffs, and the group results are gathered, together with their level values, into
 * the parallel lists from which a MultiIndex and the concatenated output are built.
 *
 * xarray's `groupby` is modelled as its sorted distinct labels with the frames of each
 * label in stack order. Level values are reals.
 *
 * The parameter `skimage` of the corrected operations is the dependency check on the
 * module scikit-image installs, `skimage`; the check as written asks for the distribution
 * name `scikit-image`, which `ScikitImageCheckRaises` shows never imports.
 */
module Hdr {
  import opened Wrappers
  import OptionalDeps

  // ---------------------------------------------------------------------------
  // Sequences of sequences
  // ---------------------------------------------------------------------------

  /** Flattening one level: the items of `ss[0]`, then those of `ss[1]`, and so on. */
  function Concat<T>(ss: seq<seq<T>>): (r: seq<T>)
    ensures |ss| > 0 ==> r == Concat(ss[..|ss| - 1]) + ss[|ss| - 1]
  {
    if ss == [] then [] else Concat(ss[..|ss| - 1]) + ss[|ss| - 1]
  }

  /** What holds of every item of every part holds of every item of the concatenation. */
  lemma {:induction false} ConcatForall<T>(ss: seq<seq<T>>, P: T -> bool)
    requires forall k, x | 0 <= k < |ss| && x in ss[k] :: P(x)
    ensures forall x | x in Concat(ss) :: P(x)
  {
    if ss != [] {
      ConcatForall(ss[..|ss| - 1], P);
    }
  }

  /** Parts ordered internally and against each other concatenate to an ordered sequence. */
  lemma {:induction false} ConcatOrdered<T>(ss: seq<seq<T>>, R: (T, T) -> bool)
    requires forall k | 0 <= k < |ss| :: forall i, j | 0 <= i < j < |ss[k]| :: R(ss[k][i], ss[k][j])
    requires forall k, l, x, y | 0 <= k < l < |ss| && x in ss[k] && y in ss[l] :: R(x, y)
    ensures forall i, j | 0 <= i < j < |Concat(ss)| :: R(Concat(ss)[i], Concat(ss)[j])
  {
    if ss != [] {
      var front, last := ss[..|ss| - 1], ss[|ss| - 1];
      ConcatOrdered(front, R);
      ConcatForall(front, (x: T) => forall y | y in last :: R(x, y));
      assert Concat(ss) == Concat(front) + last;
      AppendOrdered(Concat(front), last, R);
    }
  }

  /** Two ordered sequences, every item of the first before every item of the second, concatenate in order. */
  lemma AppendOrdered<T>(a: seq<T>, b: seq<T>, R: (T, T) -> bool)
    requires forall i, j | 0 <= i < j < |a| :: R(a[i], a[j])
    requires forall i, j | 0 <= i < j < |b| :: R(b[i], b[j])
    requires forall x | x in a :: forall y | y in b :: R(x, y)
    ensures forall i, j | 0 <= i < j < |a + b| :: R((a + b)[i], (a + b)[j])
  {
    var c := a + b;
    forall i, j | 0 <= i < j < |c| ensures R(c[i], c[j]) {
      if j < |a| {
        assert c[i] == a[i] && c[j] == a[j];
      } else if i < |a| {
        assert c[i] == a[i] && a[i] in a;
        assert c[j] == b[j - |a|] && b[j - |a|] in b;
      } else {
        assert c[i] == b[i - |a|] && c[j] == b[j - |a|];
      }
    }
  }

  /** What holds of every item of every part holds of every item of the concatenation. */
  lemma {:induction false} ConcatForallIndexed<T>(ss: seq<seq<T>>, P: T -> bool)
    requires forall k, i | 0 <= k < |ss| && 0 <= i < |ss[k]| :: P(ss[k][i])
    ensures forall i | 0 <= i < |Concat(ss)| :: P(Concat(ss)[i])
  {
    if ss != [] {
      var n := |ss| - 1;
      ConcatForallIndexed(ss[..n], P);
      var c := Concat(ss);
      assert c == Concat(ss[..n]) + ss[n];
      forall i | 0 <= i < |c| ensures P(c[i]) {
        if i < |Concat(ss[..n])| {
          assert c[i] == Concat(ss[..n])[i];
        } else {
          assert c[i] == ss[n][i - |Concat(ss[..n])|];
        }
      }
    }
  }

  /** The items of a concatenation, counted with multiplicity, are those of its parts. */
  function SumMultisets<T>(ss: seq<seq<T>>): multiset<T> {
    if ss == [] then multiset{} else SumMultisets(ss[..|ss| - 1]) + multiset(ss[|ss| - 1])
  }

  lemma {:induction false} ConcatMultiset<T>(ss: seq<seq<T>>)
    ensures multiset(Concat(ss)) == SumMultisets(ss)
  {
    if ss != [] {
      ConcatMultiset(ss[..|ss| - 1]);
    }
  }

  // ---------------------------------------------------------------------------
  // Frames and levels
  // ---------------------------------------------------------------------------

  /** One entry of the stacked `system` dimension: its index-level values and its raw pixels. */
  datatype Frame = Frame(levels: map<string, real>, raw: seq<real>)

  const FileNumber: string := "filenumber"
  const Exposure: string := "exposure"

  /** The levels the stack is never grouped on. */
  predicate Excluded(level: string) {
    level == FileNumber || level == Exposure
  }

  /** Every frame carries a value for each of the level names `dims`. */
  ghost predicate HasLevels(frames: seq<Frame>, dims: seq<string>) {
    forall f, d | f in frames && d in dims :: d in f.levels
  }

  /** Every frame has a positive exposure time. */
  ghost predicate Exposed(frames: seq<Frame>) {
    forall f | f in frames :: Exposure in f.levels && f.levels[Exposure] > 0.0
  }

  /**
   * The stack's shape: the stacked `system` index has the levels `names`, which include
   * `exposure`, and every exposure time is positive.
   */
  ghost predicate Shaped(frames: seq<Frame>, names: seq<string>) {
    Exposure in names && HasLevels(frames, names) && Exposed(frames)
  }

  /** The level names `scaleAndMask` groups on: all but `filenumber` and `exposure`, in order. */
  function GroupLevels(names: seq<string>): (dims: seq<string>)
    ensures forall d :: d in dims <==> d in names && !Excluded(d)
    ensures |dims| <= |names|
  {
    if names == [] then []
    else
      var front := GroupLevels(names[..|names| - 1]);
      assert forall d :: d in names <==> d in names[..|names| - 1] || d == names[|names| - 1];
      if Excluded(names[|names| - 1]) then front else front + [names[|names| - 1]]
  }

  /** The grouping-dimension loop of `scaleAndMask`. */
  method SelectGroupingDims(names: seq<string>) returns (dims: seq<string>)
    ensures dims == GroupLevels(names)
  {
    dims := [];
    var i := 0;
    while i < |names|
      invariant 0 <= i <= |names|
      invariant dims == GroupLevels(names[..i])
    {
      assert names[..i + 1][..i] == names[..i];
      if !Excluded(names[i]) {
        dims := dims + [names[i]];
      }
      i := i + 1;
    }
    assert names[..|names|] == names;
  }

  /** The grouping levels keep the order they have among the index levels. */
  lemma {:induction false} GroupLevelsInOrder(names: seq<string>)
    ensures forall i, j | 0 <= i < j < |GroupLevels(names)| ::
      exists a, b | 0 <= a < b < |names| :: names[a] == GroupLevels(names)[i] && names[b] == GroupLevels(names)[j]
  {
    if names != [] {
      var front := names[..|names| - 1];
      GroupLevelsInOrder(front);
      var fd := GroupLevels(front);
      var dims := GroupLevels(names);
      forall i, j | 0 <= i < j < |dims|
        ensures exists a, b | 0 <= a < b < |names| :: names[a] == dims[i] && names[b] == dims[j]
      {
        assert dims[i] == fd[i];
        if j < |fd| {
          assert dims[j] == fd[j];
          var a, b :| 0 <= a < b < |front| && front[a] == fd[i] && front[b] == fd[j];
          assert names[a] == front[a] && names[b] == front[b];
        } else {
          assert dims[j] == names[|names| - 1];
          assert fd[i] in fd;
          var a :| 0 <= a < |front| && front[a] == fd[i];
          assert names[a] == front[a];
        }
      }
    } else {
      assert GroupLevels(names) == [];
    }
  }

  // ---------------------------------------------------------------------------
  // groupby: sorted distinct labels, frames of each label in stack order
  // ---------------------------------------------------------------------------

  predicate Ascending(ks: seq<real>) {
    forall i, j | 0 <= i < j < |ks| :: ks[i] < ks[j]
  }

  /** Adds `x` to an ascending sequence of distinct labels. */
  function Insert(ks: seq<real>, x: real): (r: seq<real>)
    requires Ascending(ks)
    ensures Ascending(r)
    ensures forall y :: y in r <==> y in ks || y == x
  {
    if ks == [] then [x]
    else if x < ks[0] then [x] + ks
    else if x == ks[0] then ks
    else
      var rest := Insert(ks[1..], x);
      assert forall y :: y in ks <==> y == ks[0] || y in ks[1..];
      forall y | y in ks[1..] ensures ks[0] < y {
        var k :| 0 <= k < |ks[1..]| && ks[1..][k] == y;
        assert y == ks[k + 1];
      }
      ConsAscending(ks[0], rest);
      [ks[0]] + rest
  }

  /** A label below every label of an ascending sequence extends it at the front. */
  lemma ConsAscending(h: real, rest: seq<real>)
    requires Ascending(rest)
    requires forall y | y in rest :: h < y
    ensures Ascending([h] + rest)
  {
    var c := [h] + rest;
    forall i, j | 0 <= i < j < |c| ensures c[i] < c[j] {
      assert c[j] == rest[j - 1] && rest[j - 1] in rest;
      if i > 0 {
        assert c[i] == rest[i - 1];
      }
    }
  }

  /** The distinct values of `xs`, ascending. */
  function SortedDistinct(xs: seq<real>): (ks: seq<real>)
    ensures Ascending(ks)
    ensures forall x :: x in ks <==> x in xs
  {
    if xs == [] then []
    else
      assert forall x :: x in xs <==> x in xs[..|xs| - 1] || x == xs[|xs| - 1];
      Insert(SortedDistinct(xs[..|xs| - 1]), xs[|xs| - 1])
  }

  /** Each frame's value of level `dim`, in stack order. */
  function LevelValues(frames: seq<Frame>, dim: string): (vs: seq<real>)
    requires forall f | f in frames :: dim in f.levels
    ensures |vs| == |frames|
    ensures forall i | 0 <= i < |frames| :: vs[i] == frames[i].levels[dim]
  {
    seq(|frames|, i requires 0 <= i < |frames| => frames[i].levels[dim])
  }

  /** The frames whose level `dim` equals `key`, in stack order. */
  function Members(frames: seq<Frame>, dim: string, key: real): (m: seq<Frame>)
    requires forall f | f in frames :: dim in f.levels
    ensures forall f :: f in m <==> f in frames && f.levels[dim] == key
  {
    if frames == [] then []
    else
      var last := frames[|frames| - 1];
      assert forall f :: f in frames <==> f in frames[..|frames| - 1] || f == last;
      Members(frames[..|frames| - 1], dim, key) + (if last.levels[dim] == key then [last] else [])
  }

  /** One group of `groupby(dim)`: its label and its frames. */
  datatype Group = Group(key: real, members: seq<Frame>)

  /** `groupby(dim)`: one group per distinct value of the level, labels ascending. */
  function GroupBy(frames: seq<Frame>, dim: string): (gs: seq<Group>)
    requires forall f | f in frames :: dim in f.levels
    ensures forall g | 0 <= g < |gs| :: gs[g].members == Members(frames, dim, gs[g].key)
    ensures forall g | 0 <= g < |gs| :: |gs[g].members| > 0
    ensures forall g, h | 0 <= g < h < |gs| :: gs[g].key < gs[h].key
    ensures forall f | f in frames :: exists g | 0 <= g < |gs| :: gs[g].key == f.levels[dim]
    ensures |frames| > 0 ==> |gs| > 0
  {
    var keys := SortedDistinct(LevelValues(frames, dim));
    var gs := seq(|keys|, g requires 0 <= g < |keys| => Group(keys[g], Members(frames, dim, keys[g])));
    GroupByCovers(frames, dim, keys, gs);
    gs
  }

  lemma GroupByCovers(frames: seq<Frame>, dim: string, keys: seq<real>, gs: seq<Group>)
    requires forall f | f in frames :: dim in f.levels
    requires keys == SortedDistinct(LevelValues(frames, dim))
    requires |gs| == |keys|
    requires forall g | 0 <= g < |gs| :: gs[g] == Group(keys[g], Members(frames, dim, keys[g]))
    ensures forall g | 0 <= g < |gs| :: |gs[g].members| > 0
    ensures forall f | f in frames :: exists g | 0 <= g < |gs| :: gs[g].key == f.levels[dim]
  {
    var vs := LevelValues(frames, dim);
    forall g | 0 <= g < |gs| ensures |gs[g].members| > 0 {
      assert keys[g] in vs;
      var i :| 0 <= i < |vs| && vs[i] == keys[g];
      assert frames[i] in gs[g].members;
    }
    forall f | f in frames ensures exists g | 0 <= g < |gs| :: gs[g].key == f.levels[dim] {
      var i :| 0 <= i < |frames| && frames[i] == f;
      assert vs[i] in keys;
      var g :| 0 <= g < |keys| && keys[g] == vs[i];
      assert gs[g].key == f.levels[dim];
    }
  }

  /** The groups' frames, counted with multiplicity, are exactly the stack's frames. */
  lemma GroupByPartitions(frames: seq<Frame>, dim: string)
    requires forall f | f in frames :: dim in f.levels
    ensures SumMultisets(GroupFrames(GroupBy(frames, dim))) == multiset(frames)
  {
    var gs := GroupBy(frames, dim);
    var keys := seq(|gs|, g requires 0 <= g < |gs| => gs[g].key);
    assert GroupFrames(gs) == MembersByKey(frames, dim, keys);
    forall f | f in frames ensures f.levels[dim] in keys {
      var g :| 0 <= g < |gs| && gs[g].key == f.levels[dim];
      assert keys[g] == f.levels[dim];
    }
    MembersPartition(frames, dim, keys);
  }

  function GroupFrames(gs: seq<Group>): (ss: seq<seq<Frame>>)
    ensures |ss| == |gs| && forall g | 0 <= g < |gs| :: ss[g] == gs[g].members
  {
    seq(|gs|, g requires 0 <= g < |gs| => gs[g].members)
  }

  /** The members of each label in turn. */
  function MembersByKey(frames: seq<Frame>, dim: string, keys: seq<real>): (ss: seq<seq<Frame>>)
    requires forall f | f in frames :: dim in f.levels
    ensures |ss| == |keys| && forall g | 0 <= g < |keys| :: ss[g] == Members(frames, dim, keys[g])
  {
    seq(|keys|, g requires 0 <= g < |keys| => Members(frames, dim, keys[g]))
  }

  /** `[f]` at the labels `f` matches, `[]` elsewhere. */
  function Matching(f: Frame, dim: string, keys: seq<real>): (ss: seq<seq<Frame>>)
    requires dim in f.levels
    ensures |ss| == |keys| && forall g | 0 <= g < |keys| :: ss[g] == if f.levels[dim] == keys[g] then [f] else []
  {
    seq(|keys|, g requires 0 <= g < |keys| => if f.levels[dim] == keys[g] then [f] else [])
  }

  /** Splitting by distinct labels that cover every frame's value keeps every frame exactly once. */
  lemma {:induction false} MembersPartition(frames: seq<Frame>, dim: string, keys: seq<real>)
    requires forall f | f in frames :: dim in f.levels && f.levels[dim] in keys
    requires forall g, h | 0 <= g < h < |keys| :: keys[g] != keys[h]
    ensures SumMultisets(MembersByKey(frames, dim, keys)) == multiset(frames)
  {
    if frames == [] {
      SumOfEmpties(MembersByKey(frames, dim, keys));
    } else {
      var front, last := frames[..|frames| - 1], frames[|frames| - 1];
      assert forall f | f in front :: f in frames;
      MembersPartition(front, dim, keys);
      assert last in frames;
      PartitionSnoc(frames, dim, keys);
    }
  }

  lemma PartitionSnoc(frames: seq<Frame>, dim: string, keys: seq<real>)
    requires frames != []
    requires forall f | f in frames :: dim in f.levels
    requires frames[|frames| - 1].levels[dim] in keys
    requires forall g, h | 0 <= g < h < |keys| :: keys[g] != keys[h]
    requires SumMultisets(MembersByKey(frames[..|frames| - 1], dim, keys)) == multiset(frames[..|frames| - 1])
    ensures SumMultisets(MembersByKey(frames, dim, keys)) == multiset(frames)
  {
    var front, last := frames[..|frames| - 1], frames[|frames| - 1];
    MembersByKeySnoc(frames, dim, keys);
    SumSingleton(keys, last, dim);
    assert SumMultisets(Matching(last, dim, keys)) == multiset{last};
    MultisetSnoc(frames);
  }

  lemma MultisetSnoc<T>(s: seq<T>)
    requires s != []
    ensures multiset(s) == multiset(s[..|s| - 1]) + multiset{s[|s| - 1]}
  {
    assert s == s[..|s| - 1] + [s[|s| - 1]];
  }

  /** Appending one frame adds it to the members of its own label and nowhere else. */
  lemma MembersByKeySnoc(frames: seq<Frame>, dim: string, keys: seq<real>)
    requires forall f | f in frames :: dim in f.levels
    requires frames != []
    ensures SumMultisets(MembersByKey(frames, dim, keys))
         == SumMultisets(MembersByKey(frames[..|frames| - 1], dim, keys))
            + SumMultisets(Matching(frames[|frames| - 1], dim, keys))
  {
    var front, last := frames[..|frames| - 1], frames[|frames| - 1];
    var all, before, here := MembersByKey(frames, dim, keys), MembersByKey(front, dim, keys), Matching(last, dim, keys);
    forall k | 0 <= k < |keys| ensures all[k] == before[k] + here[k] {
      MembersLast(frames, dim, keys[k]);
    }
    SumPointwise(all, before, here);
  }

  lemma MembersLast(frames: seq<Frame>, dim: string, key: real)
    requires forall f | f in frames :: dim in f.levels
    requires frames != []
    ensures Members(frames, dim, key)
         == Members(frames[..|frames| - 1], dim, key)
            + (if frames[|frames| - 1].levels[dim] == key then [frames[|frames| - 1]] else [])
  {
  }

  lemma {:induction false} SumOfEmpties<T>(ss: seq<seq<T>>)
    requires forall k | 0 <= k < |ss| :: ss[k] == []
    ensures SumMultisets(ss) == multiset{}
  {
    if ss != [] {
      SumOfEmpties(ss[..|ss| - 1]);
    }
  }

  lemma {:induction false} SumPointwise<T>(ss: seq<seq<T>>, as_: seq<seq<T>>, bs: seq<seq<T>>)
    requires |ss| == |as_| == |bs|
    requires forall k | 0 <= k < |ss| :: ss[k] == as_[k] + bs[k]
    ensures SumMultisets(ss) == SumMultisets(as_) + SumMultisets(bs)
  {
    if ss != [] {
      var n := |ss| - 1;
      SumPointwise(ss[..n], as_[..n], bs[..n]);
    }
  }

  /** Exactly one of the distinct labels matches the frame, so it is counted once. */
  lemma {:induction false} SumSingleton(keys: seq<real>, f: Frame, dim: string)
    requires dim in f.levels
    requires forall g, h | 0 <= g < h < |keys| :: keys[g] != keys[h]
    ensures SumMultisets(Matching(f, dim, keys)) == if f.levels[dim] in keys then multiset{f} else multiset{}
  {
    if keys != [] {
      var n := |keys| - 1;
      SumSingleton(keys[..n], f, dim);
      assert Matching(f, dim, keys)[..n] == Matching(f, dim, keys[..n]);
      assert f.levels[dim] in keys <==> f.levels[dim] in keys[..n] || f.levels[dim] == keys[n];
    }
  }

  // ---------------------------------------------------------------------------
  // hdr_work: exposure scaling and the cutoff masks (`close_mask` off)
  // ---------------------------------------------------------------------------

  /** A pixel of the scaled stack: NaN where a mask hit it, otherwise the scaled value. */
  datatype Pixel = Masked | Scaled(value: real)

  /** `mask_hi`, `mask_lo` and the two exposure cutoffs. */
  datatype MaskParams = MaskParams(maskHi: bool, maskLo: bool, cutoffHi: real, cutoffLo: real)

  /** The defaults of `scaleAndMask` and `hdr_work`. */
  const DefaultMask: MaskParams := MaskParams(true, true, 45000.0, 20.0)

  /** The raw count is hit by the high mask or by the low mask. */
  predicate Discarded(p: MaskParams, raw: real) {
    (p.maskHi && raw > p.cutoffHi) || (p.maskLo && raw < p.cutoffLo)
  }

  /** One pixel after scaling by the frame's exposure and masking. */
  function ScalePixel(p: MaskParams, raw: real, exposure: real): (px: Pixel)
    requires exposure > 0.0
    ensures px.Masked? <==> Discarded(p, raw)
    ensures px.Scaled? ==> px.value * exposure == raw
  {
    if Discarded(p, raw) then Masked else Scaled(raw / exposure)
  }

  /** A count equal to a cutoff is kept: both comparisons are strict. */
  lemma CutoffsAreKept(p: MaskParams, exposure: real)
    requires exposure > 0.0
    requires p.cutoffLo <= p.cutoffHi
    ensures ScalePixel(p, p.cutoffHi, exposure) == Scaled(p.cutoffHi / exposure)
    ensures ScalePixel(p, p.cutoffLo, exposure) == Scaled(p.cutoffLo / exposure)
  {
  }

  /** With the default parameters a pixel survives exactly when 20 <= raw <= 45000. */
  lemma DefaultMaskKeeps(raw: real, exposure: real)
    requires exposure > 0.0
    ensures ScalePixel(DefaultMask, raw, exposure).Scaled? <==> 20.0 <= raw <= 45000.0
  {
  }

  /** The scaled and masked pixels of one frame. */
  function ScaledFrame(p: MaskParams, f: Frame): (px: seq<Pixel>)
    requires Exposure in f.levels && f.levels[Exposure] > 0.0
    ensures |px| == |f.raw|
  {
    seq(|f.raw|, j requires 0 <= j < |f.raw| => ScalePixel(p, f.raw[j], f.levels[Exposure]))
  }

  /**
   * The masking of one frame as `hdr_work` performs it: divide by the exposure, then
   * overwrite the pixels of the high mask, then those of the low mask, with NaN.
   */
  method MaskFrame(p: MaskParams, raw: seq<real>, exposure: real) returns (px: seq<Pixel>)
    requires exposure > 0.0
    ensures |px| == |raw|
    ensures forall j | 0 <= j < |raw| :: px[j].Masked? <==> Discarded(p, raw[j])
    ensures forall j | 0 <= j < |raw| :: px[j].Scaled? ==> px[j].value * exposure == raw[j]
    ensures px == seq(|raw|, j requires 0 <= j < |raw| => ScalePixel(p, raw[j], exposure))
  {
    var a := new Pixel[|raw|](j requires 0 <= j < |raw| => Scaled(raw[j] / exposure));
    for i := 0 to a.Length
      invariant forall j | 0 <= j < a.Length ::
        a[j] == if j < i && p.maskHi && raw[j] > p.cutoffHi then Masked else Scaled(raw[j] / exposure)
    {
      if p.maskHi && raw[i] > p.cutoffHi {
        a[i] := Masked;
      }
    }
    for i := 0 to a.Length
      invariant forall j | 0 <= j < a.Length ::
        a[j] == if (p.maskHi && raw[j] > p.cutoffHi) || (j < i && p.maskLo && raw[j] < p.cutoffLo)
                then Masked else Scaled(raw[j] / exposure)
    {
      if p.maskLo && raw[i] < p.cutoffLo {
        a[i] := Masked;
      }
    }
    px := a[..];
  }

  /**
   * One innermost group's result: its scaled and masked frames, which `np.nanmedian`
   * then reduces pixel by pixel.
   */
  type Row = seq<seq<Pixel>>

  /**
   * Each frame divided by its own exposure time and masked: the evidently intended divisor
   * of `hdr_work` (the code as written reads the unstacked exposure level instead, see
   * `DivisorsAsWritten`).
   */
  function Work(frames: seq<Frame>, p: MaskParams): (stack: Row)
    requires Exposed(frames)
    ensures |stack| == |frames|
    ensures forall i | 0 <= i < |frames| :: stack[i] == ScaledFrame(p, frames[i])
  {
    seq(|frames|, i requires 0 <= i < |frames| => ScaledFrame(p, frames[i]))
  }

  // ---------------------------------------------------------------------------
  // The innermost groups of the recursion
  // ---------------------------------------------------------------------------

  /**
   * The groups `hdr_recurse` reaches its leaf with, in the order it reaches them: the
   * stack is split on the last dimension, and each part, in label order, is split on the
   * remaining ones.
   */
  function Leaves(frames: seq<Frame>, dims: seq<string>): (ls: seq<seq<Frame>>)
    requires frames != [] && HasLevels(frames, dims)
    ensures forall i | 0 <= i < |ls| :: ls[i] != [] && forall f | f in ls[i] :: f in frames
    decreases |dims|
  {
    if dims == [] then [frames]
    else
      var gs := SplitOnLast(frames, dims);
      var rest := dims[..|dims| - 1];
      var parts: seq<seq<seq<Frame>>> := seq(|gs|, k requires 0 <= k < |gs| => Leaves(gs[k].members, rest));
      LeavesOfParts(frames, gs, parts);
      Concat(parts)
  }

  /** The leaves of the groups are non-empty sequences of the stack's frames. */
  lemma LeavesOfParts(frames: seq<Frame>, gs: seq<Group>, parts: seq<seq<seq<Frame>>>)
    requires |parts| == |gs|
    requires forall k | 0 <= k < |gs| :: forall f | f in gs[k].members :: f in frames
    requires forall k | 0 <= k < |gs| :: forall i | 0 <= i < |parts[k]| ::
      parts[k][i] != [] && forall f | f in parts[k][i] :: f in gs[k].members
    ensures forall i | 0 <= i < |Concat(parts)| :: Concat(parts)[i] != [] && forall f | f in Concat(parts)[i] :: f in frames
  {
    var P := (l: seq<Frame>) => l != [] && forall f | f in l :: f in frames;
    forall k, x | 0 <= k < |parts| && x in parts[k] ensures P(x) {
      var i :| 0 <= i < |parts[k]| && parts[k][i] == x;
    }
    ConcatForall(parts, P);
    var ls := Concat(parts);
    forall i | 0 <= i < |ls| ensures P(ls[i]) {
      assert ls[i] in ls;
    }
  }

  /** `groupby` on the last of `dims`, with what each group offers the next level down. */
  function SplitOnLast(frames: seq<Frame>, dims: seq<string>): (gs: seq<Group>)
    requires dims != [] && HasLevels(frames, dims)
    ensures forall f | f in frames :: dims[|dims| - 1] in f.levels
    ensures gs == GroupBy(frames, dims[|dims| - 1])
    ensures forall k | 0 <= k < |gs| ::
      && gs[k].members != []
      && HasLevels(gs[k].members, dims[..|dims| - 1])
      && forall f | f in gs[k].members :: f in frames && f.levels[dims[|dims| - 1]] == gs[k].key
  {
    var target, rest := dims[|dims| - 1], dims[..|dims| - 1];
    assert target in dims;
    var gs := GroupBy(frames, target);
    forall k | 0 <= k < |gs| ensures HasLevels(gs[k].members, rest) {
      forall f, d | f in gs[k].members && d in rest ensures d in f.levels {
        assert d in dims;
      }
    }
    gs
  }

  /** The rows of the leaves, in order. */
  function LeafRows(ls: seq<seq<Frame>>, p: MaskParams): (rows: seq<Row>)
    requires forall i | 0 <= i < |ls| :: Exposed(ls[i])
    ensures |rows| == |ls|
    ensures forall i | 0 <= i < |ls| :: rows[i] == Work(ls[i], p)
  {
    seq(|ls|, i requires 0 <= i < |ls| => Work(ls[i], p))
  }

  /** The leaves' values of level `d`, each read off the leaf's first frame. */
  function IndexColumn(ls: seq<seq<Frame>>, d: string): (col: seq<real>)
    requires forall i | 0 <= i < |ls| :: ls[i] != [] && d in ls[i][0].levels
    ensures |col| == |ls|
    ensures forall i | 0 <= i < |ls| :: col[i] == ls[i][0].levels[d]
  {
    seq(|ls|, i requires 0 <= i < |ls| => ls[i][0].levels[d])
  }

  /** Every frame of `l` has the value of `l[0]` in each of `dims`. */
  ghost predicate Uniform(l: seq<Frame>, dims: seq<string>) {
    l != [] && forall f, d | f in l && d in dims :: d in f.levels && d in l[0].levels && f.levels[d] == l[0].levels[d]
  }

  /** The first frames of `a` and `b` differ in one of `dims`. */
  ghost predicate Differ(a: seq<Frame>, b: seq<Frame>, dims: seq<string>) {
    a != [] && b != [] && exists d | d in dims :: d in a[0].levels && d in b[0].levels && a[0].levels[d] != b[0].levels[d]
  }

  /** Within a leaf every frame has the same value of every grouped dimension. */
  lemma {:induction false} LeavesAgree(frames: seq<Frame>, dims: seq<string>)
    requires frames != [] && HasLevels(frames, dims)
    ensures forall i | 0 <= i < |Leaves(frames, dims)| :: Uniform(Leaves(frames, dims)[i], dims)
    decreases |dims|
  {
    if dims == [] {
    } else {
      var rest := dims[..|dims| - 1];
      var gs := SplitOnLast(frames, dims);
      var parts: seq<seq<seq<Frame>>> := seq(|gs|, k requires 0 <= k < |gs| => Leaves(gs[k].members, rest));
      forall k, i | 0 <= k < |parts| && 0 <= i < |parts[k]| ensures Uniform(parts[k][i], dims) {
        LeavesAgree(gs[k].members, rest);
        UniformOneMore(parts[k][i], dims, gs[k].key);
      }
      ConcatForallIndexed(parts, (l: seq<Frame>) => Uniform(l, dims));
    }
  }

  /** A leaf uniform in the remaining dimensions and drawn from one group is uniform in all. */
  lemma UniformOneMore(l: seq<Frame>, dims: seq<string>, key: real)
    requires dims != []
    requires Uniform(l, dims[..|dims| - 1])
    requires forall f | f in l :: dims[|dims| - 1] in f.levels && f.levels[dims[|dims| - 1]] == key
    ensures Uniform(l, dims)
  {
    forall f, d | f in l && d in dims ensures d in f.levels && d in l[0].levels && f.levels[d] == l[0].levels[d] {
      if d != dims[|dims| - 1] {
        assert d in dims[..|dims| - 1];
      }
    }
  }

  /** Two different leaves differ in some grouped dimension: the index rows are unique. */
  lemma {:induction false} LeavesDistinct(frames: seq<Frame>, dims: seq<string>)
    requires frames != [] && HasLevels(frames, dims)
    ensures forall i, j | 0 <= i < j < |Leaves(frames, dims)| :: Differ(Leaves(frames, dims)[i], Leaves(frames, dims)[j], dims)
    decreases |dims|
  {
    if dims != [] {
      var target, rest := dims[|dims| - 1], dims[..|dims| - 1];
      var gs := SplitOnLast(frames, dims);
      var parts: seq<seq<seq<Frame>>> := seq(|gs|, k requires 0 <= k < |gs| => Leaves(gs[k].members, rest));
      var R := (a: seq<Frame>, b: seq<Frame>) => Differ(a, b, dims);
      forall k | 0 <= k < |parts| ensures forall i, j | 0 <= i < j < |parts[k]| :: R(parts[k][i], parts[k][j]) {
        LeavesDistinct(gs[k].members, rest);
        DistinctWithinGroup(parts[k], dims);
      }
      forall k | 0 <= k < |parts| ensures forall i | 0 <= i < |parts[k]| :: parts[k][i] != [] && parts[k][i][0] in gs[k].members {
        forall i | 0 <= i < |parts[k]| ensures parts[k][i] != [] && parts[k][i][0] in gs[k].members {
          assert parts[k][i][0] in parts[k][i];
        }
      }
      DistinctAcrossGroups(gs, parts, dims);
      ConcatOrdered(parts, R);
    }
  }

  /** Leaves of one group that differ in the remaining dimensions differ in all of them. */
  lemma DistinctWithinGroup(part: seq<seq<Frame>>, dims: seq<string>)
    requires dims != []
    requires forall i, j | 0 <= i < j < |part| :: Differ(part[i], part[j], dims[..|dims| - 1])
    ensures forall i, j | 0 <= i < j < |part| :: Differ(part[i], part[j], dims)
  {
    forall i, j | 0 <= i < j < |part| ensures Differ(part[i], part[j], dims) {
      DifferOneMore(part[i], part[j], dims);
    }
  }

  /** Leaves of two different groups differ in the dimension the groups were split on. */
  lemma DistinctAcrossGroups(gs: seq<Group>, parts: seq<seq<seq<Frame>>>, dims: seq<string>)
    requires dims != [] && |parts| == |gs|
    requires forall k, l | 0 <= k < l < |gs| :: gs[k].key < gs[l].key
    requires forall k | 0 <= k < |gs| ::
      forall f | f in gs[k].members :: dims[|dims| - 1] in f.levels && f.levels[dims[|dims| - 1]] == gs[k].key
    requires forall k | 0 <= k < |parts| ::
      forall i | 0 <= i < |parts[k]| :: parts[k][i] != [] && parts[k][i][0] in gs[k].members
    ensures forall k: int, l: int, a: seq<Frame>, b: seq<Frame> | 0 <= k < l < |parts| && a in parts[k] && b in parts[l] :: Differ(a, b, dims)
  {
    var target := dims[|dims| - 1];
    assert target in dims;
    forall k: int, l: int, a: seq<Frame>, b: seq<Frame> | 0 <= k < l < |parts| && a in parts[k] && b in parts[l] ensures Differ(a, b, dims) {
      var i :| 0 <= i < |parts[k]| && parts[k][i] == a;
      var j :| 0 <= j < |parts[l]| && parts[l][j] == b;
      assert a[0].levels[target] == gs[k].key < gs[l].key == b[0].levels[target];
    }
  }

  /** Differing in the remaining dimensions is differing in all of them. */
  lemma DifferOneMore(a: seq<Frame>, b: seq<Frame>, dims: seq<string>)
    requires dims != []
    requires Differ(a, b, dims[..|dims| - 1])
    ensures Differ(a, b, dims)
  {
    var d :| d in dims[..|dims| - 1] && d in a[0].levels && d in b[0].levels && a[0].levels[d] != b[0].levels[d];
    assert d in dims;
  }

  /** Every frame of the stack lies in exactly one leaf, and nothing else does. */
  lemma {:induction false} LeavesPartition(frames: seq<Frame>, dims: seq<string>)
    requires frames != [] && HasLevels(frames, dims)
    ensures SumMultisets(Leaves(frames, dims)) == multiset(frames)
    ensures multiset(Concat(Leaves(frames, dims))) == multiset(frames)
    decreases |dims|
  {
    if dims != [] {
      var target, rest := dims[|dims| - 1], dims[..|dims| - 1];
      var gs := SplitOnLast(frames, dims);
      var parts: seq<seq<seq<Frame>>> := seq(|gs|, k requires 0 <= k < |gs| => Leaves(gs[k].members, rest));
      forall k | 0 <= k < |gs| ensures multiset(GroupFrames(gs)[k]) == SumMultisets(parts[k]) {
        LeavesPartition(gs[k].members, rest);
      }
      SumOfConcat(parts, GroupFrames(gs));
      GroupByPartitions(frames, target);
    }
    ConcatMultiset(Leaves(frames, dims));
  }

  lemma {:induction false} SumAppend<T>(a: seq<seq<T>>, b: seq<seq<T>>)
    ensures SumMultisets(a + b) == SumMultisets(a) + SumMultisets(b)
  {
    if b != [] {
      var n := |b| - 1;
      SumAppend(a, b[..n]);
      assert (a + b)[..|a + b| - 1] == a + b[..n];
    } else {
      assert a + b == a;
    }
  }

  /** Counting the items of a two-level concatenation part by part. */
  lemma {:induction false} SumOfConcat<T>(pss: seq<seq<seq<T>>>, flat: seq<seq<T>>)
    requires |flat| == |pss|
    requires forall k | 0 <= k < |pss| :: multiset(flat[k]) == SumMultisets(pss[k])
    ensures SumMultisets(Concat(pss)) == SumMultisets(flat)
  {
    if pss != [] {
      var n := |pss| - 1;
      SumOfConcat(pss[..n], flat[..n]);
      SumAppend(Concat(pss[..n]), pss[n]);
    }
  }

  // ---------------------------------------------------------------------------
  // hdr_work, hdr_recurse and scaleAndMask
  // ---------------------------------------------------------------------------

  /** A recursion level's rows: the accumulated list, or a leaf's single result. */
  datatype Rows = RowList(items: seq<Row>) | OneRow(item: Row)

  /** A coordinate entry: the accumulated list, or a leaf's single value. */
  datatype CoordValue = CoordList(values: seq<real>) | CoordScalar(value: real)

  /** The exceptions raised on the way. */
  datatype HdrError =
    | MissingScikitImage  // `requires_optional('scikit-image')` on `hdr_work`
    | WarningsUndefined   // NameError: the `close_mask` fallback calls `warnings`, never imported
    | TooManyIndices      // IndexError: a one-dimensional coordinate indexed with three keys
    | NotAPair            // unpacking a leaf's bare DataArray as `(rows, coords)`
    | EmptyIndex          // a MultiIndex with no levels, or no rows to concatenate

  /** The one-level flattening of rows: a list contributes its items, a single result itself. */
  function FlattenRows(rs: Rows): (items: seq<Row>)
    ensures rs.OneRow? ==> items == [rs.item]
    ensures rs.RowList? ==> items == rs.items
  {
    match rs
    case RowList(items) => items
    case OneRow(item) => [item]
  }

  /** The same flattening for a coordinate entry. */
  function FlattenCoord(c: CoordValue): (values: seq<real>)
    ensures c.CoordScalar? ==> values == [c.value]
    ensures c.CoordList? ==> values == c.values
  {
    match c
    case CoordList(values) => values
    case CoordScalar(value) => [value]
  }

  /** Appends a child's rows to the accumulator, item by item. */
  method AppendRows(acc: seq<Row>, rs: Rows) returns (out: seq<Row>)
    ensures out == acc + FlattenRows(rs)
  {
    out := acc;
    match rs {
      case RowList(items) =>
        for i := 0 to |items|
          invariant out == acc + items[..i]
        {
          out := out + [items[i]];
        }
        assert items[..|items|] == items;
      case OneRow(item) =>
        out := out + [item];
    }
  }

  /** Extends one accumulated column by a child's entry: a list item by item, a single value once. */
  method ExtendColumn(column: seq<real>, c: CoordValue) returns (out: seq<real>)
    ensures out == column + FlattenCoord(c)
  {
    out := column;
    match c {
      case CoordList(values) =>
        for i := 0 to |values|
          invariant out == column + values[..i]
        {
          out := out + [values[i]];
        }
        assert values[..|values|] == values;
      case CoordScalar(value) =>
        out := out + [value];
    }
  }

  /** The accumulator once the keys `done` of the child's coordinates have been appended. */
  ghost predicate Merged(out: map<string, seq<real>>, acc: map<string, seq<real>>, cs: map<string, CoordValue>, done: set<string>)
    requires done <= cs.Keys
  {
    && (forall d :: d in out <==> d in acc || d in done)
    && forall d | d in out :: out[d] == (if d in acc then acc[d] else []) + (if d in done then FlattenCoord(cs[d]) else [])
  }

  /** Appends a child's coordinates to the `defaultdict(list)` accumulator, key by key. */
  method AppendCoords(acc: map<string, seq<real>>, cs: map<string, CoordValue>) returns (out: map<string, seq<real>>)
    ensures forall d :: d in out <==> d in acc || d in cs
    ensures forall d | d in out ::
      out[d] == (if d in acc then acc[d] else []) + (if d in cs then FlattenCoord(cs[d]) else [])
  {
    out := acc;
    var todo := cs.Keys;
    while todo != {}
      invariant todo <= cs.Keys
      invariant Merged(out, acc, cs, cs.Keys - todo)
      decreases todo
    {
      var d :| d in todo;
      var column := ExtendColumn(if d in out then out[d] else [], cs[d]);
      MergeOne(out, acc, cs, cs.Keys - todo, d, column);
      out := out[d := column];
      todo := todo - {d};
    }
  }

  lemma MergeOne(out: map<string, seq<real>>, acc: map<string, seq<real>>, cs: map<string, CoordValue>, done: set<string>,
                 d: string, column: seq<real>)
    requires done <= cs.Keys && d in cs && d !in done
    requires Merged(out, acc, cs, done)
    requires column == (if d in out then out[d] else []) + FlattenCoord(cs[d])
    ensures Merged(out[d := column], acc, cs, done + {d})
  {
    var before: seq<real> := if d in acc then acc[d] else [];
    assert column == before + FlattenCoord(cs[d]) by {
      if d in out {
        assert out[d] == before + [];
        assert before + [] == before;
      }
    }
    var merged := out[d := column];
    forall e | e in merged
      ensures merged[e] == (if e in acc then acc[e] else []) + (if e in done + {d} then FlattenCoord(cs[e]) else [])
    {
      if e != d {
        assert merged[e] == out[e];
      }
    }
  }

  /** The leaf coordinates: each grouped level's value in the group's first frame. */
  ghost predicate LeafCoords(coords: map<string, CoordValue>, frames: seq<Frame>, names: seq<string>, destCoords: map<string, real>)
    requires frames != [] && HasLevels(frames, names)
  {
    && (forall d :: d in coords <==> d in destCoords || d in GroupLevels(names))
    && forall d | d in coords ::
         coords[d] == CoordScalar(if d in GroupLevels(names) then frames[0].levels[d] else destCoords[d])
  }

  /**
   * `hdr_work` as the recursion needs it: the group's scaled and masked frames, and the
   * coordinate dict it was given with every grouped level set from the first frame.
   * `skimage` is the decorator's dependency check, asking for the module `skimage`.
   */
  method HdrWork(frames: seq<Frame>, names: seq<string>, destCoords: map<string, real>, p: MaskParams, skimage: bool)
    returns (r: Result<(Rows, map<string, CoordValue>), HdrError>)
    requires frames != [] && Shaped(frames, names)
    ensures r.Failure? <==> !skimage
    ensures r.Failure? ==> r.error == MissingScikitImage
    ensures r.Success? ==> r.value.0 == OneRow(Work(frames, p))
    ensures r.Success? ==> LeafCoords(r.value.1, frames, names, destCoords)
  {
    if !skimage {
      return Failure(MissingScikitImage);
    }
    var stack := ScaleStack(frames, p);
    var first := frames[0];
    assert forall d | d in names :: d in first.levels by {
      assert first in frames;
    }
    var coords := LabelLeaf(first, names, destCoords);
    r := Success((OneRow(stack), map d | d in coords :: CoordScalar(coords[d])));
  }

  /** The masking loop of `hdr_work`: every frame of the stack masked and scaled by its exposure. */
  method ScaleStack(frames: seq<Frame>, p: MaskParams) returns (stack: Row)
    requires Exposed(frames)
    ensures stack == Work(frames, p)
  {
    stack := [];
    for i := 0 to |frames|
      invariant |stack| == i
      invariant forall k | 0 <= k < i :: stack[k] == ScaledFrame(p, frames[k])
    {
      var px := MaskFrame(p, frames[i].raw, frames[i].levels[Exposure]);
      stack := stack + [px];
    }
  }

  /**
   * The coordinate loop of `hdr_work`: every grouping level of the first frame is written
   * over the context, and the rest of the context is kept.
   */
  method LabelLeaf(first: Frame, names: seq<string>, destCoords: map<string, real>) returns (coords: map<string, real>)
    requires forall d | d in names :: d in first.levels
    ensures forall d :: d in coords <==> d in destCoords || d in GroupLevels(names)
    ensures forall d | d in coords ::
      coords[d] == if d in GroupLevels(names) then first.levels[d] else destCoords[d]
  {
    coords := destCoords;
    for i := 0 to |names|
      invariant forall d :: d in coords <==> d in destCoords || d in GroupLevels(names[..i])
      invariant forall d | d in coords ::
        coords[d] == if d in GroupLevels(names[..i]) then first.levels[d] else destCoords[d]
    {
      assert names[..i + 1] == names[..i] + [names[i]];
      if !Excluded(names[i]) {
        coords := coords[names[i] := first.levels[names[i]]];
      }
    }
    assert names[..|names|] == names;
  }

  /** Non-empty groups of well-shaped frames whose first frames carry every level. */
  ghost predicate GoodLeaves(ls: seq<seq<Frame>>, names: seq<string>) {
    forall i | 0 <= i < |ls| :: ls[i] != [] && Shaped(ls[i], names) && forall d | d in names :: d in ls[i][0].levels
  }

  /** The leaves of a well-shaped stack, split on grouping levels only. */
  function ShapedLeaves(frames: seq<Frame>, dims: seq<string>, names: seq<string>): (ls: seq<seq<Frame>>)
    requires frames != [] && Shaped(frames, names)
    requires forall d | d in dims :: d in GroupLevels(names)
    ensures HasLevels(frames, dims)
    ensures ls == Leaves(frames, dims)
    ensures GoodLeaves(ls, names)
  {
    forall f, d | f in frames && d in dims ensures d in f.levels {
      assert d in GroupLevels(names);
      assert d in names;
    }
    var ls := Leaves(frames, dims);
    forall i | 0 <= i < |ls| ensures Shaped(ls[i], names) && forall d | d in names :: d in ls[i][0].levels {
      assert ls[i][0] in ls[i];
    }
    ls
  }

  /**
   * What `hdr_recurse` returns for `frames` still to be split on `dims`: one row per leaf,
   * in leaf order, and for every grouped level a column of the leaves' values, each as
   * long as the rows, flattened one level as the caller does.
   */
  ghost predicate Assembled(v: (Rows, map<string, CoordValue>), ls: seq<seq<Frame>>, leaf: bool, names: seq<string>, p: MaskParams)
    requires GoodLeaves(ls, names)
  {
    && (v.0.OneRow? <==> leaf)
    && FlattenRows(v.0) == LeafRows(ls, p)
    && (forall d :: d in v.1 <==> d in GroupLevels(names))
    && forall d | d in v.1 :: FlattenCoord(v.1[d]) == IndexColumn(ls, d)
  }

  /** Appending the leaves of one more group appends their rows and their index values. */
  lemma AppendLeaves(a: seq<seq<Frame>>, b: seq<seq<Frame>>, names: seq<string>, p: MaskParams)
    requires GoodLeaves(a, names) && GoodLeaves(b, names)
    ensures GoodLeaves(a + b, names)
    ensures LeafRows(a + b, p) == LeafRows(a, p) + LeafRows(b, p)
    ensures forall d | d in names :: IndexColumn(a + b, d) == IndexColumn(a, d) + IndexColumn(b, d)
  {
    forall i | |a| <= i < |a + b| ensures (a + b)[i] == b[i - |a|] {
    }
  }

  /**
   * `hdr_recurse`, with the leaf returning its row together with its coordinates: split on
   * the last remaining dimension, recurse into each group with a copy of the context
   * extended by the group's label, and accumulate the children's rows and coordinate
   * columns, flattened one level.
   */
  method HdrRecurse(frames: seq<Frame>, dims: seq<string>, destCoords: map<string, real>,
                    names: seq<string>, p: MaskParams, skimage: bool)
    returns (r: Result<(Rows, map<string, CoordValue>), HdrError>)
    requires frames != [] && Shaped(frames, names)
    requires forall d | d in dims :: d in GroupLevels(names)
    requires forall d | d in destCoords :: d in GroupLevels(names)
    ensures r.Failure? <==> !skimage
    ensures r.Failure? ==> r.error == MissingScikitImage
    ensures r.Success? ==> Assembled(r.value, ShapedLeaves(frames, dims, names), dims == [], names, p)
    decreases |dims|, 2
  {
    if |dims| > 0 {
      r := RecurseOnGroups(frames, dims, destCoords, names, p, skimage);
    } else {
      r := HdrWork(frames, names, destCoords, p, skimage);
      if r.Success? {
        LeafAssembled(r.value, frames, names, destCoords, p);
      }
    }
  }

  /** A leaf's row and coordinates form the one-leaf assembly. */
  lemma LeafAssembled(v: (Rows, map<string, CoordValue>), frames: seq<Frame>, names: seq<string>,
                      destCoords: map<string, real>, p: MaskParams)
    requires frames != [] && Shaped(frames, names)
    requires forall d | d in destCoords :: d in GroupLevels(names)
    requires v.0 == OneRow(Work(frames, p))
    requires LeafCoords(v.1, frames, names, destCoords)
    ensures Assembled(v, ShapedLeaves(frames, [], names), true, names, p)
  {
    var ls := ShapedLeaves(frames, [], names);
    assert ls == [frames];
    forall d | d in v.1 ensures FlattenCoord(v.1[d]) == IndexColumn(ls, d) {
      assert d in GroupLevels(names);
    }
  }

  /** The grouping branch of `hdr_recurse`: split on the last dimension and assemble the groups' results. */
  method RecurseOnGroups(frames: seq<Frame>, dims: seq<string>, destCoords: map<string, real>,
                         names: seq<string>, p: MaskParams, skimage: bool)
    returns (r: Result<(Rows, map<string, CoordValue>), HdrError>)
    requires frames != [] && Shaped(frames, names) && dims != []
    requires forall d | d in dims :: d in GroupLevels(names)
    requires forall d | d in destCoords :: d in GroupLevels(names)
    ensures r.Failure? <==> !skimage
    ensures r.Failure? ==> r.error == MissingScikitImage
    ensures r.Success? ==> Assembled(r.value, ShapedLeaves(frames, dims, names), false, names, p)
    decreases |dims|, 1
  {
    var target := dims[|dims| - 1];
    var remaining := dims[..|dims| - 1];
    var gs := SplitOnLast(frames, dims);
    ghost var parts := SplitShaped(frames, dims, names);
    var accumulated := AccumulateGroups(gs, target, remaining, destCoords, names, p, skimage, parts);
    if accumulated.Failure? {
      return Failure(accumulated.error);
    }
    var (rows, acc) := accumulated.value;
    r := Success((RowList(rows), map d | d in acc :: CoordList(acc[d])));
    GroupsAssembled(ShapedLeaves(frames, dims, names), rows, acc, names, p);
  }

  /** The leaves of a split stack are the leaves of its groups, one group after another. */
  lemma SplitShaped(frames: seq<Frame>, dims: seq<string>, names: seq<string>) returns (parts: seq<seq<seq<Frame>>>)
    requires frames != [] && Shaped(frames, names) && dims != []
    requires forall d | d in dims :: d in GroupLevels(names)
    ensures dims[|dims| - 1] in GroupLevels(names)
    ensures forall d | d in dims[..|dims| - 1] :: d in GroupLevels(names)
    ensures |parts| == |SplitOnLast(frames, dims)|
    ensures forall k | 0 <= k < |parts| ::
      && SplitOnLast(frames, dims)[k].members != [] && Shaped(SplitOnLast(frames, dims)[k].members, names)
      && parts[k] == ShapedLeaves(SplitOnLast(frames, dims)[k].members, dims[..|dims| - 1], names)
    ensures ShapedLeaves(frames, dims, names) == Concat(parts)
  {
    var remaining := dims[..|dims| - 1];
    var gs := SplitOnLast(frames, dims);
    parts := seq(|gs|, k requires 0 <= k < |gs| => Leaves(gs[k].members, remaining));
    assert forall d | d in remaining :: d in dims;
    assert dims[|dims| - 1] in dims;
    GroupsShaped(frames, names, gs);
    forall k | 0 <= k < |gs| ensures parts[k] == ShapedLeaves(gs[k].members, remaining, names) {
    }
  }

  /**
   * The loop of `hdr_recurse` over the groups: set the group's label in the context,
   * recurse, and append the child's rows and coordinates to the accumulators.
   */
  method AccumulateGroups(gs: seq<Group>, target: string, remaining: seq<string>, destCoords: map<string, real>,
                          names: seq<string>, p: MaskParams, skimage: bool, ghost parts: seq<seq<seq<Frame>>>)
    returns (r: Result<(seq<Row>, map<string, seq<real>>), HdrError>)
    requires gs != [] && |parts| == |gs|
    requires target in GroupLevels(names)
    requires forall d | d in remaining :: d in GroupLevels(names)
    requires forall d | d in destCoords :: d in GroupLevels(names)
    requires forall k | 0 <= k < |gs| ::
      && gs[k].members != [] && Shaped(gs[k].members, names)
      && parts[k] == ShapedLeaves(gs[k].members, remaining, names)
    ensures r.Failure? <==> !skimage
    ensures r.Failure? ==> r.error == MissingScikitImage
    ensures r.Success? ==> GoodLeaves(Concat(parts), names) && Accumulated(r.value.0, r.value.1, Concat(parts), true, names, p)
    decreases |remaining| + 1, 0
  {
    var rows: seq<Row> := [];
    var acc: map<string, seq<real>> := map[];
    var coords := destCoords;
    for g := 0 to |gs|
      invariant g > 0 ==> skimage
      invariant forall d | d in coords :: d in GroupLevels(names)
      invariant GoodLeaves(Concat(parts[..g]), names)
      invariant Accumulated(rows, acc, Concat(parts[..g]), g > 0, names, p)
    {
      coords := coords[target := gs[g].key];
      var child := HdrRecurse(gs[g].members, remaining, coords, names, p, skimage);
      if child.Failure? {
        return Failure(child.error);
      }
      var (rowsNew, coordsNew) := child.value;
      ghost var rows0, acc0 := rows, acc;
      rows := AppendRows(rows, rowsNew);
      acc := AppendCoords(acc, coordsNew);
      ConcatStep(parts, g);
      AccumulateGroup(rows0, acc0, Concat(parts[..g]), g > 0, (rowsNew, coordsNew), parts[g], remaining == [], rows, acc, names, p);
    }
    assert parts[..|gs|] == parts;
    return Success((rows, acc));
  }

  /** The groups of a well-shaped stack are well-shaped stacks. */
  lemma GroupsShaped(frames: seq<Frame>, names: seq<string>, gs: seq<Group>)
    requires Shaped(frames, names)
    requires forall k | 0 <= k < |gs| :: forall f | f in gs[k].members :: f in frames
    ensures forall k | 0 <= k < |gs| :: Shaped(gs[k].members, names)
  {
  }

  /** The accumulators hold the rows and index columns of the leaves `done`. */
  ghost predicate Accumulated(rows: seq<Row>, acc: map<string, seq<real>>, done: seq<seq<Frame>>, started: bool,
                              names: seq<string>, p: MaskParams)
    requires GoodLeaves(done, names)
  {
    && rows == LeafRows(done, p)
    && (!started ==> acc == map[] && done == [])
    && (started ==> forall d :: d in acc <==> d in GroupLevels(names))
    && forall d | d in acc :: d in GroupLevels(names) && acc[d] == IndexColumn(done, d)
  }

  /** Appending one group's result extends the accumulators by that group's leaves. */
  lemma AccumulateGroup(rows: seq<Row>, acc: map<string, seq<real>>, done: seq<seq<Frame>>, started: bool,
                        child: (Rows, map<string, CoordValue>), part: seq<seq<Frame>>, leaf: bool,
                        rows': seq<Row>, acc': map<string, seq<real>>, names: seq<string>, p: MaskParams)
    requires GoodLeaves(done, names) && GoodLeaves(part, names)
    requires Accumulated(rows, acc, done, started, names, p)
    requires Assembled(child, part, leaf, names, p)
    requires rows' == rows + FlattenRows(child.0)
    requires forall d :: d in acc' <==> d in acc || d in child.1
    requires forall d | d in acc' ::
      acc'[d] == (if d in acc then acc[d] else []) + (if d in child.1 then FlattenCoord(child.1[d]) else [])
    ensures GoodLeaves(done + part, names)
    ensures Accumulated(rows', acc', done + part, true, names, p)
  {
    AppendLeaves(done, part, names, p);
    forall d | d in acc' ensures d in GroupLevels(names) && acc'[d] == IndexColumn(done + part, d) {
      assert d in names;
      if d !in acc {
        assert IndexColumn(done, d) == [];
      }
    }
  }

  /** The accumulators after the last group form the assembly of all the leaves. */
  lemma GroupsAssembled(ls: seq<seq<Frame>>, rows: seq<Row>, acc: map<string, seq<real>>, names: seq<string>, p: MaskParams)
    requires GoodLeaves(ls, names)
    requires rows == LeafRows(ls, p)
    requires forall d :: d in acc <==> d in GroupLevels(names)
    requires forall d | d in acc :: d in GroupLevels(names) && acc[d] == IndexColumn(ls, d)
    ensures Assembled((RowList(rows), map d | d in acc :: CoordList(acc[d])), ls, false, names, p)
  {
  }

  /** The assembled result: the rows, and the MultiIndex columns by level name. */
  datatype HdrOutput = HdrOutput(rows: seq<Row>, index: map<string, seq<real>>)

  /** The MultiIndex entry of row `i`: each level's value in that row. */
  function Entry(index: map<string, seq<real>>, i: nat): (e: map<string, real>)
    requires forall d | d in index :: i < |index[d]|
    ensures e.Keys == index.Keys
  {
    map d | d in index :: index[d][i]
  }

  /**
   * `out` is the assembly of the stack: one row per innermost group on the grouping
   * levels, and one index column per grouping level holding each group's value.
   */
  ghost predicate Describes(out: HdrOutput, frames: seq<Frame>, names: seq<string>, p: MaskParams)
    requires frames != [] && Shaped(frames, names)
  {
    var ls := ShapedLeaves(frames, GroupLevels(names), names);
    && out.rows == LeafRows(ls, p)
    && (forall d :: d in out.index <==> d in GroupLevels(names))
    && (forall d | d in out.index :: out.index[d] == IndexColumn(ls, d))
  }

  /**
   * `scaleAndMask` with the leaf returning its row and coordinates, and the dependency check
   * asking for the module `skimage`: pick the grouping levels, assemble the rows and the
   * index columns, and build the `system` MultiIndex from them.
   */
  method ScaleAndMask(frames: seq<Frame>, names: seq<string>, p: MaskParams, installed: string -> bool)
    returns (r: Result<HdrOutput, HdrError>)
    requires Shaped(frames, names)
    ensures frames == [] ==> r == Failure(EmptyIndex)
    ensures frames != [] && !installed("skimage") ==> r == Failure(MissingScikitImage)
    ensures frames != [] && installed("skimage") && GroupLevels(names) == [] ==> r == Failure(EmptyIndex)
    ensures frames != [] && installed("skimage") && GroupLevels(names) != [] ==> r.Success?
    ensures r.Success? ==> frames != [] && Describes(r.value, frames, names, p)
  {
    var skimage := installed("skimage");
    var dims := SelectGroupingDims(names);
    if frames == [] {
      return Failure(EmptyIndex);
    }
    var recursed := HdrRecurse(frames, dims, map[], names, p, skimage);
    if recursed.Failure? {
      return Failure(recursed.error);
    }
    var (rows, coords) := recursed.value;
    if dims == [] {
      return Failure(EmptyIndex);
    }
    var index := map d | d in coords :: FlattenCoord(coords[d]);
    r := Success(HdrOutput(FlattenRows(rows), index));
  }

  /** Every index column is as long as the row list, as `MultiIndex.from_arrays` and `concat` need. */
  lemma DescribedColumnsParallel(out: HdrOutput, frames: seq<Frame>, names: seq<string>, p: MaskParams)
    requires frames != [] && Shaped(frames, names)
    requires Describes(out, frames, names, p)
    ensures forall d | d in out.index :: |out.index[d]| == |out.rows|
  {
  }

  /** No two rows have the same MultiIndex entry. */
  lemma DescribedEntriesUnique(out: HdrOutput, frames: seq<Frame>, names: seq<string>, p: MaskParams)
    requires frames != [] && Shaped(frames, names)
    requires Describes(out, frames, names, p)
    ensures forall d | d in out.index :: |out.index[d]| == |out.rows|
    ensures forall i, j | 0 <= i < j < |out.rows| :: Entry(out.index, i) != Entry(out.index, j)
  {
    var dims := GroupLevels(names);
    var ls := ShapedLeaves(frames, dims, names);
    LeavesDistinct(frames, dims);
    forall i, j | 0 <= i < j < |out.rows| ensures Entry(out.index, i) != Entry(out.index, j) {
      assert Differ(ls[i], ls[j], dims);
      var d :| d in dims && d in ls[i][0].levels && d in ls[j][0].levels && ls[i][0].levels[d] != ls[j][0].levels[d];
      assert Entry(out.index, i)[d] != Entry(out.index, j)[d];
    }
  }

  /**
   * Row `i` stacks the frames of one group, all of which carry row `i`'s index entry, and
   * every frame of the stack is in exactly one row.
   */
  lemma DescribedRowsAreGroups(out: HdrOutput, frames: seq<Frame>, names: seq<string>, p: MaskParams)
    requires frames != [] && Shaped(frames, names)
    requires Describes(out, frames, names, p)
    ensures forall d | d in out.index :: |out.index[d]| == |out.rows|
    ensures forall i | 0 <= i < |out.rows| ::
      forall f | f in ShapedLeaves(frames, GroupLevels(names), names)[i] :: forall d | d in out.index ::
        f.levels[d] == Entry(out.index, i)[d]
    ensures multiset(Concat(ShapedLeaves(frames, GroupLevels(names), names))) == multiset(frames)
  {
    var dims := GroupLevels(names);
    var ls := ShapedLeaves(frames, dims, names);
    LeavesAgree(frames, dims);
    LeavesPartition(frames, dims);
    forall i | 0 <= i < |out.rows| ensures forall f: Frame | f in ls[i] :: forall d | d in out.index :: f.levels[d] == Entry(out.index, i)[d] {
      assert Uniform(ls[i], dims);
    }
  }

  // ---------------------------------------------------------------------------
  // The recursion as written: the leaf hands back a bare result
  //
  // `skimage` is the dependency check the decorator performs, and `divisorFixed` says
  // whether line 99 divides each frame by its own exposure. As written, the check asks
  // for `scikit-image` and the divisor is the unstacked level (`DivisorsAsWritten`);
  // setting either switch isolates the defects that come after it.
  // ---------------------------------------------------------------------------

  /** What `hdr_recurse` hands back as written: its two accumulators, or at a leaf `hdr_work`'s bare result. */
  datatype Returned = Accumulators(rows: seq<Row>, coords: map<string, seq<real>>) | Bare(row: Row)

  /**
   * `hdr_work` as written: the decorated call, the division of line 99 (which raises unless
   * the divisor is fixed), and the result returned alone.
   */
  function WorkAsWritten(frames: seq<Frame>, p: MaskParams, skimage: bool, divisorFixed: bool): (r: Result<Returned, HdrError>)
    requires Exposed(frames)
    ensures r.Failure? <==> !skimage || !divisorFixed
    ensures !skimage ==> r == Failure(MissingScikitImage)
    ensures skimage && !divisorFixed ==> r == Failure(TooManyIndices)
    ensures r.Success? ==> r.value == Bare(Work(frames, p))
  {
    if !skimage then Failure(MissingScikitImage)
    else if !divisorFixed then
      match DivisorsAsWritten(frames)
      case Failure(e) => Failure(e)
      // Indexing the one-dimensional coordinate with three keys never succeeds.
      case Success(_) => assert false; Failure(TooManyIndices)
    else Success(Bare(Work(frames, p)))
  }

  /** The defaultdict accumulation of a child's coordinate lists. */
  function ExtendCoords(coords: map<string, seq<real>>, cs: map<string, seq<real>>): (out: map<string, seq<real>>)
    ensures forall d :: d in out <==> d in coords || d in cs
  {
    map d | d in coords.Keys + cs.Keys :: (if d in coords then coords[d] else []) + (if d in cs then cs[d] else [])
  }

  /** `hdr_recurse` as written. */
  function RecurseAsWritten(frames: seq<Frame>, dims: seq<string>, p: MaskParams, skimage: bool, divisorFixed: bool): Result<Returned, HdrError>
    requires frames != [] && HasLevels(frames, dims) && Exposed(frames)
    decreases |dims|, 1, 0
  {
    if dims == [] then WorkAsWritten(frames, p, skimage, divisorFixed)
    else
      var gs := SplitOnLast(frames, dims);
      assert forall k | 0 <= k < |gs| :: Exposed(gs[k].members);
      GroupsAsWritten(gs, dims[..|dims| - 1], p, skimage, divisorFixed, 0, [], map[])
  }

  /** The loop over the groups of `hdr_recurse` as written, from group `k` on. */
  function GroupsAsWritten(gs: seq<Group>, rest: seq<string>, p: MaskParams, skimage: bool, divisorFixed: bool,
                           k: nat, rows: seq<Row>, coords: map<string, seq<real>>): Result<Returned, HdrError>
    requires k <= |gs|
    requires forall g | 0 <= g < |gs| :: gs[g].members != [] && HasLevels(gs[g].members, rest) && Exposed(gs[g].members)
    decreases |rest| + 1, 0, |gs| - k
  {
    if k == |gs| then Success(Accumulators(rows, coords))
    else
      match RecurseAsWritten(gs[k].members, rest, p, skimage, divisorFixed)
      case Failure(e) => Failure(e)
      case Success(Bare(_)) => Failure(NotAPair)
      case Success(Accumulators(rs, cs)) =>
        GroupsAsWritten(gs, rest, p, skimage, divisorFixed, k + 1, rows + rs, ExtendCoords(coords, cs))
  }

  /**
   * `scaleAndMask` as written, given `HAS_SKIMAGE` (the same check the decorator of
   * `hdr_work` repeats): without it, the `close_mask` fallback raises before anything else.
   */
  function ScaleAndMaskAsWritten(frames: seq<Frame>, names: seq<string>, p: MaskParams,
                                 closeMask: bool, skimage: bool, divisorFixed: bool): Result<HdrOutput, HdrError>
    requires Shaped(frames, names)
  {
    if closeMask && !skimage then Failure(WarningsUndefined)
    else if frames == [] then Failure(EmptyIndex)
    else
      var dims := GroupLevels(names);
      assert HasLevels(frames, dims) by {
        forall f, d | f in frames && d in dims ensures d in f.levels {
          assert d in names;
        }
      }
      match RecurseAsWritten(frames, dims, p, skimage, divisorFixed)
      case Failure(e) => Failure(e)
      case Success(Bare(_)) => Failure(NotAPair)
      case Success(Accumulators(rows, coords)) =>
        if coords == map[] || rows == [] then Failure(EmptyIndex) else Success(HdrOutput(rows, coords))
  }

  /**
   * The recursion as written never gets past its first leaf: that leaf raises (the check,
   * then the divisor), or, with both fixed, its bare result is unpacked as a pair, which
   * raises; the failure propagates to the top.
   */
  lemma {:induction false} RecurseAsWrittenRaises(frames: seq<Frame>, dims: seq<string>, p: MaskParams,
                                                  skimage: bool, divisorFixed: bool)
    requires frames != [] && HasLevels(frames, dims) && Exposed(frames)
    ensures RecurseAsWritten(frames, dims, p, skimage, divisorFixed)
         == if !skimage then Failure(MissingScikitImage)
            else if !divisorFixed then Failure(TooManyIndices)
            else if dims == [] then Success(Bare(Work(frames, p)))
            else Failure(NotAPair)
    decreases |dims|
  {
    if dims != [] {
      var rest := dims[..|dims| - 1];
      var gs := SplitOnLast(frames, dims);
      assert forall k | 0 <= k < |gs| :: Exposed(gs[k].members);
      RecurseAsWrittenRaises(gs[0].members, rest, p, skimage, divisorFixed);
    }
  }

  /**
   * `scaleAndMask` as written raises on every stack: NameError from the `close_mask`
   * fallback, ImportError from the check, IndexError from the divisor, and, with the check
   * and the divisor both fixed, the failed unpacking of the leaf's bare result.
   */
  lemma ScaleAndMaskAsWrittenRaises(frames: seq<Frame>, names: seq<string>, p: MaskParams, closeMask: bool,
                                    skimage: bool, divisorFixed: bool)
    requires Shaped(frames, names)
    ensures ScaleAndMaskAsWritten(frames, names, p, closeMask, skimage, divisorFixed)
         == if closeMask && !skimage then Failure(WarningsUndefined)
            else if frames == [] then Failure(EmptyIndex)
            else if !skimage then Failure(MissingScikitImage)
            else if !divisorFixed then Failure(TooManyIndices)
            else Failure(NotAPair)
  {
    if !(closeMask && !skimage) && frames != [] {
      var dims := GroupLevels(names);
      assert HasLevels(frames, dims) by {
        forall f, d | f in frames && d in dims ensures d in f.levels {
          assert d in names;
        }
      }
      RecurseAsWrittenRaises(frames, dims, p, skimage, divisorFixed);
    }
  }

  /**
   * The check as written asks `importlib` for the distribution name `scikit-image`, which is
   * no module name: it never imports, so `scaleAndMask` raises `NameError` with the default
   * `close_mask`, and `ImportError` from the decorated `hdr_work` without it.
   */
  lemma ScikitImageCheckRaises(frames: seq<Frame>, names: seq<string>, p: MaskParams, closeMask: bool,
                               installed: string -> bool)
    requires Shaped(frames, names)
    requires OptionalDeps.ModuleNamesOnly(installed)
    ensures !installed("scikit-image")
    ensures forall divisorFixed: bool ::
      ScaleAndMaskAsWritten(frames, names, p, closeMask, installed("scikit-image"), divisorFixed)
         == if closeMask then Failure(WarningsUndefined)
            else if frames == [] then Failure(EmptyIndex)
            else Failure(MissingScikitImage)
  {
    OptionalDeps.DistributionNameNeverImports(installed);
    forall divisorFixed: bool
      ensures ScaleAndMaskAsWritten(frames, names, p, closeMask, installed("scikit-image"), divisorFixed)
           == if closeMask then Failure(WarningsUndefined)
              else if frames == [] then Failure(EmptyIndex)
              else Failure(MissingScikitImage)
    {
      ScaleAndMaskAsWrittenRaises(frames, names, p, closeMask, installed("scikit-image"), divisorFixed);
    }
  }

  // ---------------------------------------------------------------------------
  // The divisor as written: the unstacked exposure level
  // ---------------------------------------------------------------------------

  /**
   * The `exposure` coordinate of the group's unstacked `system` index, which `hdr_work`
   * reads as its divisors: the group's distinct exposure times, ascending.
   */
  function UnstackedExposures(frames: seq<Frame>): (es: seq<real>)
    requires Exposed(frames)
    ensures Ascending(es)
    ensures forall e :: e in es <==> exists i | 0 <= i < |frames| :: frames[i].levels[Exposure] == e
  {
    SortedDistinct(LevelValues(frames, Exposure))
  }

  /**
   * Positional indexing of a one-dimensional coordinate: xarray expands the key to one entry
   * per dimension and refuses a key with more entries than that.
   */
  function IndexCoordinate(values: seq<real>, keyLength: nat): (r: Result<seq<real>, HdrError>)
    ensures r.Failure? <==> keyLength > 1
    ensures r.Success? ==> r.value == values
  {
    if keyLength > 1 then Failure(TooManyIndices) else Success(values)
  }

  /** The divisors of `hdr_work` as written: the unstacked exposures indexed with `[:, np.newaxis, np.newaxis]`. */
  function DivisorsAsWritten(frames: seq<Frame>): (r: Result<seq<real>, HdrError>)
    requires Exposed(frames)
    ensures r == Failure(TooManyIndices)
  {
    IndexCoordinate(UnstackedExposures(frames), 3)
  }

  /**
   * As written, the divisors never reach the frames: indexing raises; and even read as a
   * plain array, the unstacked exposures line up with the frames exactly when the exposure
   * times strictly increase along the stack.
   */
  lemma DivisorsAsWrittenMisaligned(frames: seq<Frame>)
    requires Exposed(frames)
    ensures DivisorsAsWritten(frames) == Failure(TooManyIndices)
    ensures UnstackedExposures(frames) == LevelValues(frames, Exposure) <==> Ascending(LevelValues(frames, Exposure))
  {
    var vs := LevelValues(frames, Exposure);
    if Ascending(vs) {
      SortedDistinctOfAscending(vs);
    }
  }

  /** A stack exposed for 1 and then 0.1 is divided by 0.1 and then 1; three frames with two exposure times get two divisors. */
  lemma DivisorsAsWrittenExample()
    ensures var long := Frame(map[Exposure := 1.0], [100.0]);
      var short := Frame(map[Exposure := 0.1], [10.0]);
      && UnstackedExposures([long, short]) == [0.1, 1.0]
      && |UnstackedExposures([long, long, short])| == 2
  {
    var long := Frame(map[Exposure := 1.0], [100.0]);
    var short := Frame(map[Exposure := 0.1], [10.0]);
    assert LevelValues([long, short], Exposure) == [1.0, 0.1];
    assert LevelValues([long, long, short], Exposure) == [1.0, 1.0, 0.1];
    assert [1.0, 0.1][..1] == [1.0] && [1.0][..0] == [];
    assert SortedDistinct([1.0]) == Insert([], 1.0) == [1.0];
    assert SortedDistinct([1.0, 0.1]) == Insert([1.0], 0.1) == [0.1, 1.0];
    assert [1.0, 1.0, 0.1][..2] == [1.0, 1.0] && [1.0, 1.0][..1] == [1.0];
    assert SortedDistinct([1.0, 1.0]) == Insert([1.0], 1.0) == [1.0];
    assert SortedDistinct([1.0, 1.0, 0.1]) == Insert([1.0], 0.1) == [0.1, 1.0];
  }

  /** The distinct values of an ascending sequence are the sequence itself. */
  lemma {:induction false} SortedDistinctOfAscending(xs: seq<real>)
    requires Ascending(xs)
    ensures SortedDistinct(xs) == xs
  {
    if xs != [] {
      var init := xs[..|xs| - 1];
      SortedDistinctOfAscending(init);
      forall y | y in init ensures y < xs[|xs| - 1] {
        var k :| 0 <= k < |init| && init[k] == y;
      }
      InsertGreatest(init, xs[|xs| - 1]);
      assert init + [xs[|xs| - 1]] == xs;
    }
  }

  /** Inserting a label above every label appends it. */
  lemma {:induction false} InsertGreatest(ks: seq<real>, x: real)
    requires Ascending(ks)
    requires forall y | y in ks :: y < x
    ensures Insert(ks, x) == ks + [x]
  {
    if ks != [] {
      assert ks[0] in ks;
      assert forall y | y in ks[1..] :: y in ks;
      InsertGreatest(ks[1..], x);
      assert [ks[0]] + (ks[1..] + [x]) == ks + [x];
    }
  }

  lemma ConcatStep<T>(ss: seq<seq<T>>, g: nat)
    requires g < |ss|
    ensures Concat(ss[..g + 1]) == Concat(ss[..g]) + ss[g]
  {
    assert ss[..g + 1][..g] == ss[..g];
  }

}
