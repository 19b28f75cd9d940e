/** What `resolveCollisions` does to one column once it is sorted by `y`:
    `ys` are the tops of its nodes in that order, `hs` their heights (`dy`),
    `pad` the node padding and `height` the canvas height (`size[1]`). A
    downward pass pushes each node below its predecessor plus the padding
    (and the first below 0); if the last node then ends below the canvas, an
    upward pass puts its bottom on the canvas edge and pulls the others up
    to keep the padding, with no floor at 0. */
module Collisions {

  /** The sum of a list of reals. */
  function Total(hs: seq<real>): real {
    if hs == [] then 0.0 else hs[0] + Total(hs[1..])
  }

  /** Each node ends at least `pad` above the next. */
  predicate Separated(ys: seq<real>, hs: seq<real>, pad: real)
    requires |hs| == |ys|
  {
    forall i :: 0 < i < |ys| ==> ys[i - 1] + hs[i - 1] + pad <= ys[i]
  }

  /** The top of node i after the downward pass: the accumulator `y0` is 0
      for the first node and the bottom of the previous node plus `pad`
      afterwards; a node above it is moved down by the difference. */
  function DownTop(ys: seq<real>, hs: seq<real>, pad: real, i: nat): real
    requires |hs| == |ys| && i < |ys|
  {
    var y0 := if i == 0 then 0.0 else DownTop(ys, hs, pad, i - 1) + hs[i - 1] + pad;
    var d := y0 - ys[i];
    if d > 0.0 then ys[i] + d else ys[i]
  }

  /** The column after the downward pass. */
  function Down(ys: seq<real>, hs: seq<real>, pad: real): (r: seq<real>)
    requires |hs| == |ys|
    ensures |r| == |ys|
  {
    seq(|ys|, i requires 0 <= i < |ys| => DownTop(ys, hs, pad, i))
  }

  /** How far the last node's bottom lies below the canvas, computed as the
      original does from the accumulator `y0`. */
  function Overflow(ds: seq<real>, hs: seq<real>, pad: real, height: real): real
    requires |hs| == |ds| > 0
  {
    var last := |ds| - 1;
    var y0 := ds[last] + hs[last] + pad;
    y0 - pad - height
  }

  /** The top of node i after the upward pass over the pushed-down tops
      `ds`: the last node is raised by the overflow, and each earlier node
      that reaches past the top of the next one minus `pad` is raised by the
      difference. */
  function UpTop(ds: seq<real>, hs: seq<real>, pad: real, height: real, i: nat): real
    requires |hs| == |ds| && i < |ds|
    decreases |ds| - i
  {
    if i == |ds| - 1 then ds[i] - Overflow(ds, hs, pad, height)
    else
      var d := ds[i] + hs[i] + pad - UpTop(ds, hs, pad, height, i + 1);
      if d > 0.0 then ds[i] - d else ds[i]
  }

  function Up(ds: seq<real>, hs: seq<real>, pad: real, height: real): (r: seq<real>)
    requires |hs| == |ds|
    ensures |r| == |ds|
  {
    seq(|ds|, i requires 0 <= i < |ds| => UpTop(ds, hs, pad, height, i))
  }

  /** The tops of a sorted column after `resolveCollisions`. */
  function Resolved(ys: seq<real>, hs: seq<real>, pad: real, height: real): (r: seq<real>)
    requires |hs| == |ys|
    ensures |r| == |ys|
  {
    var ds := Down(ys, hs, pad);
    if |ys| > 0 && Overflow(ds, hs, pad, height) > 0.0 then Up(ds, hs, pad, height) else ds
  }

  /** The downward pass only moves nodes down, puts the first at 0 or below,
      and leaves every node at least `pad` below the previous one. */
  lemma DownPass(ys: seq<real>, hs: seq<real>, pad: real)
    requires |hs| == |ys|
    ensures forall i :: 0 <= i < |ys| ==> Down(ys, hs, pad)[i] >= ys[i]
    ensures |ys| > 0 ==> Down(ys, hs, pad)[0] >= 0.0
    ensures Separated(Down(ys, hs, pad), hs, pad)
  {
  }

  /** A column that starts at or below 0 and already keeps the gaps is left
      where it is by the downward pass. */
  lemma {:induction false} DownKeepsClearColumn(ys: seq<real>, hs: seq<real>, pad: real, i: nat)
    requires |hs| == |ys| && i < |ys|
    requires ys[0] >= 0.0 && Separated(ys, hs, pad)
    ensures DownTop(ys, hs, pad, i) == ys[i]
  {
    if i > 0 {
      DownKeepsClearColumn(ys, hs, pad, i - 1);
    }
  }

  /** Running the downward pass twice moves nothing the second time. */
  lemma DownIdempotent(ys: seq<real>, hs: seq<real>, pad: real)
    requires |hs| == |ys|
    ensures Down(Down(ys, hs, pad), hs, pad) == Down(ys, hs, pad)
  {
    var ds := Down(ys, hs, pad);
    DownPass(ys, hs, pad);
    forall i | 0 <= i < |ds|
      ensures Down(ds, hs, pad)[i] == ds[i]
    {
      DownKeepsClearColumn(ds, hs, pad, i);
    }
  }

  /** With non-negative heights and padding, the gap kept between
      neighbours holds between any two nodes of the column. */
  lemma {:induction false} SeparatedPairwise(ys: seq<real>, hs: seq<real>, pad: real, i: nat, j: nat)
    requires |hs| == |ys| && Separated(ys, hs, pad) && pad >= 0.0
    requires forall k :: 0 <= k < |hs| ==> hs[k] >= 0.0
    requires i < j < |ys|
    ensures ys[i] + hs[i] + pad <= ys[j]
    decreases j - i
  {
    if i + 1 < j {
      SeparatedPairwise(ys, hs, pad, i + 1, j);
    }
  }

  /** The upward pass puts the last node's bottom exactly on the canvas
      edge, only moves nodes up, and restores the gaps. */
  lemma UpPass(ds: seq<real>, hs: seq<real>, pad: real, height: real)
    requires |hs| == |ds| > 0
    ensures var us := Up(ds, hs, pad, height);
      && us[|ds| - 1] + hs[|ds| - 1] == height
      && (Overflow(ds, hs, pad, height) > 0.0 ==> forall i :: 0 <= i < |ds| ==> us[i] <= ds[i])
      && Separated(us, hs, pad)
  {
  }

  /** There is no floor at 0 in the upward pass: two nodes of height 10
      without padding on a canvas of height 10 end with the first at -10. */
  lemma UpPassIgnoresTop()
    ensures Resolved([0.0, 0.0], [10.0, 10.0], 0.0, 10.0) == [-10.0, 0.0]
  {
    var ds := Down([0.0, 0.0], [10.0, 10.0], 0.0);
    assert ds[0] == 0.0 && ds[1] == 10.0;
    assert ds == [0.0, 10.0];
    assert Overflow(ds, [10.0, 10.0], 0.0, 10.0) == 10.0;
    var us := Up(ds, [10.0, 10.0], 0.0, 10.0);
    assert us[1] == 0.0;
    assert us[0] == -10.0;
  }

  lemma {:induction false} TotalSplit(hs: seq<real>, i: nat)
    requires i <= |hs|
    ensures Total(hs) == Total(hs[..i]) + Total(hs[i..])
  {
    if i > 0 {
      TotalSplit(hs[1..], i - 1);
      assert hs[1..][..i - 1] == hs[..i][1..];
      assert hs[1..][i - 1..] == hs[i..];
    } else {
      assert hs[i..] == hs;
    }
  }

  lemma {:induction false} TotalNonNegative(hs: seq<real>)
    requires forall k :: 0 <= k < |hs| ==> hs[k] >= 0.0
    ensures Total(hs) >= 0.0
  {
    if hs != [] {
      TotalNonNegative(hs[1..]);
    }
  }

  /** The room a suffix of the column needs below the canvas top. */
  function Room(hs: seq<real>, pad: real, height: real, i: nat): real
    requires i < |hs|
  {
    height - Total(hs[i..]) - Gaps(|hs| - 1 - i, pad)
  }

  /** After the upward pass every node is no higher than either where the
      downward pass left it or where the nodes below it need it to be. */
  lemma {:induction false} UpTopLowerBound(ds: seq<real>, hs: seq<real>, pad: real, height: real, i: nat)
    requires |hs| == |ds| && i < |ds| && Separated(ds, hs, pad)
    ensures var u := UpTop(ds, hs, pad, height, i);
      u >= ds[i] || u >= Room(hs, pad, height, i)
    decreases |ds| - i
  {
    if i < |ds| - 1 {
      UpTopLowerBound(ds, hs, pad, height, i + 1);
      assert hs[i..][1..] == hs[i + 1..];
      assert Total(hs[i..]) == hs[i] + Total(hs[i + 1..]);
      assert Room(hs, pad, height, i) == Room(hs, pad, height, i + 1) - hs[i] - pad;
    } else {
      assert hs[i..][1..] == [];
      assert Total(hs[i..]) == hs[i];
    }
  }

  lemma {:induction false} UpTopBottom(ds: seq<real>, hs: seq<real>, pad: real, height: real, i: nat)
    requires |hs| == |ds| && i < |ds| && pad >= 0.0
    requires forall k :: 0 <= k < |hs| ==> hs[k] >= 0.0
    ensures UpTop(ds, hs, pad, height, i) + hs[i] <= height
    decreases |ds| - i
  {
    if i < |ds| - 1 {
      UpTopBottom(ds, hs, pad, height, i + 1);
    }
  }

  /** The padding taken by m gaps, `m * pad`. */
  function Gaps(m: nat, pad: real): (r: real)
    ensures r == m as real * pad
  {
    if m == 0 then 0.0 else Gaps(m - 1, pad) + pad
  }

  lemma {:induction false} GapsMonotone(m: nat, k: nat, pad: real)
    requires m <= k && pad >= 0.0
    ensures Gaps(m, pad) <= Gaps(k, pad)
    decreases k - m
  {
    if m < k {
      GapsMonotone(m, k - 1, pad);
    }
  }

  /** With non-negative heights and padding, a column that fits leaves room
      for each of its suffixes. */
  lemma RoomNonNegative(hs: seq<real>, pad: real, height: real, i: nat)
    requires i < |hs| && pad >= 0.0
    requires forall k :: 0 <= k < |hs| ==> hs[k] >= 0.0
    requires Total(hs) + Gaps(|hs| - 1, pad) <= height
    ensures Room(hs, pad, height, i) >= 0.0
  {
    TotalSplit(hs, i);
    TotalNonNegative(hs[..i]);
    GapsMonotone(|hs| - 1 - i, |hs| - 1, pad);
  }

  /** The case of `ResolvedFits` where the upward pass runs. */
  lemma RaisedColumnFits(ds: seq<real>, hs: seq<real>, pad: real, height: real, i: nat)
    requires |hs| == |ds| && i < |ds| && pad >= 0.0
    requires forall k :: 0 <= k < |hs| ==> hs[k] >= 0.0
    requires ds[i] >= 0.0 && Separated(ds, hs, pad)
    requires Total(hs) + Gaps(|ds| - 1, pad) <= height
    ensures 0.0 <= UpTop(ds, hs, pad, height, i) <= height - hs[i]
  {
    UpTopLowerBound(ds, hs, pad, height, i);
    UpTopBottom(ds, hs, pad, height, i);
    RoomNonNegative(hs, pad, height, i);
  }

  /** The case of `ResolvedFits` where the downward pass suffices. */
  lemma LoweredColumnFits(ds: seq<real>, hs: seq<real>, pad: real, height: real, i: nat)
    requires |hs| == |ds| && i < |ds| && pad >= 0.0
    requires forall k :: 0 <= k < |hs| ==> hs[k] >= 0.0
    requires ds[0] >= 0.0 && Separated(ds, hs, pad)
    requires ds[|ds| - 1] + hs[|ds| - 1] <= height
    ensures 0.0 <= ds[i] <= height - hs[i]
  {
    if i < |ds| - 1 {
      SeparatedPairwise(ds, hs, pad, i, |ds| - 1);
    }
    if i > 0 {
      SeparatedPairwise(ds, hs, pad, 0, i);
    }
  }

  /** When a column's heights plus its gaps fit in the canvas, resolving
      collisions leaves every node inside [0, height], each at least `pad`
      below the previous one. */
  lemma ResolvedFits(ys: seq<real>, hs: seq<real>, pad: real, height: real)
    requires |hs| == |ys| && pad >= 0.0
    requires forall k :: 0 <= k < |hs| ==> hs[k] >= 0.0
    requires |ys| > 0 ==> Total(hs) + Gaps(|ys| - 1, pad) <= height
    ensures var r := Resolved(ys, hs, pad, height);
      && Separated(r, hs, pad)
      && forall i :: 0 <= i < |r| ==> 0.0 <= r[i] && r[i] + hs[i] <= height
  {
    var ds := Down(ys, hs, pad);
    DownPass(ys, hs, pad);
    if |ys| > 0 {
      if Overflow(ds, hs, pad, height) > 0.0 {
        UpPass(ds, hs, pad, height);
        forall i | 0 <= i < |ds|
          ensures 0.0 <= UpTop(ds, hs, pad, height, i) <= height - hs[i]
        {
          LoweredColumnFits(ds, hs, pad, 0.0 + ds[|ds| - 1] + hs[|ds| - 1], i);
          RaisedColumnFits(ds, hs, pad, height, i);
        }
      } else {
        forall i | 0 <= i < |ds|
          ensures 0.0 <= ds[i] <= height - hs[i]
        {
          LoweredColumnFits(ds, hs, pad, height, i);
        }
      }
    }
  }
}
