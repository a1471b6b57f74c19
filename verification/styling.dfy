/** The one computed part of the presentation pass: each header column's width. */
module Styling {

  /** A column is as wide as its header plus five, and never narrower than fifteen. */
  const MinWidth: nat := 15
  const Padding: nat := 5

  function ColumnWidth(header: string): (w: nat)
    ensures w >= MinWidth && w >= |header| + Padding
    ensures w == MinWidth || w == |header| + Padding
  {
    if |header| + Padding > MinWidth then |header| + Padding else MinWidth
  }

  /** The widths of the header row's columns, left to right. */
  method HeaderWidths(headers: seq<string>) returns (widths: seq<nat>)
    ensures |widths| == |headers|
    ensures forall k :: 0 <= k < |headers| ==> widths[k] == ColumnWidth(headers[k])
  {
    widths := [];
    for k := 0 to |headers|
      invariant |widths| == k
      invariant forall m :: 0 <= m < k ==> widths[m] == ColumnWidth(headers[m])
    {
      widths := widths + [ColumnWidth(headers[k])];
    }
  }
}
