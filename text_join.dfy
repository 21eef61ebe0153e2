/** Joining page texts into one document text, as Python's `sep.join(parts)`
    does: the parts in order, one separator between each neighbouring pair;
    the join adds no separator before the first part or after the last. */
module TextJoin {

  /** The separator placed between two page texts: a double line break. */
  const PageSeparator: string := "\n\n"

  /** Sum of the lengths of the parts. */
  function TotalLength(parts: seq<string>): nat
  {
    if parts == [] then 0 else |parts[0]| + TotalLength(parts[1..])
  }

  /** `sep.join(parts)`.  The empty list joins to the empty string; otherwise
      the result is as long as the parts together plus one separator for each
      of the |parts| - 1 gaps. */
  function Join(parts: seq<string>, sep: string): (r: string)
    ensures parts == [] ==> r == ""
    ensures parts != [] ==> |r| == TotalLength(parts) + |sep| * (|parts| - 1)
  {
    if parts == [] then ""
    else if |parts| == 1 then parts[0]
    else
      var rest := Join(parts[1..], sep);
      assert |sep| * (|parts| - 1) == |sep| + |sep| * (|parts[1..]| - 1);
      parts[0] + sep + rest
  }

  lemma {:induction false} TotalLengthAppend(parts: seq<string>, x: string)
    ensures TotalLength(parts + [x]) == TotalLength(parts) + |x|
  {
    if parts != [] {
      assert (parts + [x])[1..] == parts[1..] + [x];
      TotalLengthAppend(parts[1..], x);
    }
  }

  /** Joining one more part onto a non-empty list adds exactly one separator
      and then the part: the join is what the accumulate-then-join loop of the
      converter builds page by page. */
  lemma {:induction false} JoinAppend(parts: seq<string>, x: string, sep: string)
    requires parts != []
    ensures Join(parts + [x], sep) == Join(parts, sep) + sep + x
  {
    if |parts| == 1 {
      assert parts + [x] == [parts[0], x];
      assert (parts + [x])[1..] == [x];
    } else {
      assert (parts + [x])[1..] == parts[1..] + [x];
      JoinAppend(parts[1..], x, sep);
    }
  }

  /** A slice taken past a prefix is a slice of what follows it. */
  lemma SliceAfterPrefix(p: string, q: string, i: nat, j: nat)
    requires i <= j <= |q|
    ensures (p + q)[|p| + i .. |p| + j] == q[i..j]
  {
  }

  /** Position in `Join(parts, sep)` at which part k starts: after each of
      the parts before it, each followed by one separator. */
  function PartStart(parts: seq<string>, sep: string, k: nat): nat
    requires k <= |parts|
  {
    if k == 0 then 0 else |parts[0]| + |sep| + PartStart(parts[1..], sep, k - 1)
  }

  /** The start of part k in closed form: the lengths of the k parts before
      it plus k separators. */
  lemma {:induction false} PartStartClosedForm(parts: seq<string>, sep: string, k: nat)
    requires k <= |parts|
    ensures PartStart(parts, sep, k) == TotalLength(parts[..k]) + |sep| * k
  {
    if k == 0 {
      assert parts[..0] == [];
    } else {
      PartStartClosedForm(parts[1..], sep, k - 1);
      assert parts[..k][1..] == parts[1..][..k - 1];
      assert |sep| * k == |sep| + |sep| * (k - 1);
    }
  }

  /** Where everything sits in a join: part k starts at PartStart(parts, sep, k)
      and, for k > 0, is immediately preceded by a separator.  Together with the
      length in Join's contract this fixes every character of the result: the
      join adds no separator before the first part or after the last, and
      none other than the |parts| - 1 between neighbours. */
  lemma {:induction false} JoinLayout(parts: seq<string>, sep: string, k: nat)
    requires k < |parts|
    ensures var r := Join(parts, sep);
            var start := PartStart(parts, sep, k);
            && start + |parts[k]| <= |r|
            && r[start .. start + |parts[k]|] == parts[k]
            && (k > 0 ==> |sep| <= start && r[start - |sep| .. start] == sep)
  {
    if k == 0 {
      if |parts| > 1 {
        assert Join(parts, sep) == parts[0] + sep + Join(parts[1..], sep);
      }
    } else {
      var tail := parts[1..];
      var rest := Join(tail, sep);
      var head := parts[0] + sep;
      assert Join(parts, sep) == head + rest;
      JoinLayout(tail, sep, k - 1);
      var restStart := PartStart(tail, sep, k - 1);
      assert tail[k - 1] == parts[k];
      SliceAfterPrefix(head, rest, restStart, restStart + |parts[k]|);
      if k > 1 {
        SliceAfterPrefix(head, rest, restStart - |sep|, restStart);
      } else {
        assert (head + rest)[|parts[0]| .. |head|] == sep;
      }
    }
  }

  /** A non-empty join starts with the first part and ends with the last one:
      the join adds no separator before the first part or after the last (a
      part that is empty or itself begins or ends with the separator still
      shows it there). */
  lemma JoinEnds(parts: seq<string>, sep: string)
    requires parts != []
    ensures var r := Join(parts, sep);
            && |parts[0]| <= |r| && r[..|parts[0]|] == parts[0]
            && |parts[|parts| - 1]| <= |r| && r[|r| - |parts[|parts| - 1]|..] == parts[|parts| - 1]
  {
    var n := |parts|;
    JoinLayout(parts, sep, 0);
    JoinLayout(parts, sep, n - 1);
    PartStartClosedForm(parts, sep, n - 1);
    assert parts[..n - 1] + [parts[n - 1]] == parts;
    TotalLengthAppend(parts[..n - 1], parts[n - 1]);
  }
}
