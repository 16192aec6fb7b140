/** `mg_normalize_uri_path`: removing `.` and `..` segments from a path, in place (RFC 3986, section 5.2.4). */
module UriPath {
  import opened Bytes

  const SLASH: byte := 47
  const DOT: byte := 46

  // ------------------------------------------------------------------ a stack of segments

  /** Length of the first segment, its slash included. */
  function SegmentEnd(s: seq<byte>): (n: nat)
    requires s != []
    ensures 0 < n <= |s|
    ensures forall i :: 0 <= i < n - 1 ==> s[i] != SLASH
    ensures n < |s| ==> s[n - 1] == SLASH
  {
    if s[0] == SLASH || |s| == 1 then 1 else 1 + SegmentEnd(s[1..])
  }

  /** The path cut behind every slash. */
  function Segments(s: seq<byte>): seq<seq<byte>> {
    if s == [] then [] else [s[..SegmentEnd(s)]] + Segments(s[SegmentEnd(s)..])
  }

  function Component(segment: seq<byte>): seq<byte> {
    if segment != [] && segment[|segment| - 1] == SLASH then segment[..|segment| - 1] else segment
  }

  /** `..` removes the last segment, but never the root. */
  function Pop(stack: seq<seq<byte>>): seq<seq<byte>> {
    if |stack| > 1 then stack[..|stack| - 1] else stack
  }

  function Apply(stack: seq<seq<byte>>, segment: seq<byte>): seq<seq<byte>> {
    if Component(segment) == [DOT] then stack
    else if Component(segment) == [DOT, DOT] then Pop(stack)
    else stack + [segment]
  }

  function ApplyAll(stack: seq<seq<byte>>, segments: seq<seq<byte>>): seq<seq<byte>>
    decreases segments
  {
    if segments == [] then stack else ApplyAll(Apply(stack, segments[0]), segments[1..])
  }

  /** The normalised path, or nothing for one that does not start with a slash. */
  function Normalized(path: seq<byte>): Option<seq<byte>> {
    if path == [] || path[0] != SLASH then None else Some(Concat(ApplyAll([], Segments(path))))
  }

  // ------------------------------------------------------------------ what the result looks like

  /** One segment: a slash can only be its last byte. */
  predicate IsSegment(s: seq<byte>) {
    s != [] && forall i :: 0 <= i < |s| - 1 ==> s[i] != SLASH
  }

  predicate Ended(s: seq<byte>) {
    s != [] && s[|s| - 1] == SLASH
  }

  predicate IsDots(s: seq<byte>) {
    Component(s) == [DOT] || Component(s) == [DOT, DOT]
  }

  /** Segments of a path: all but the last end with a slash. */
  predicate WellCut(segments: seq<seq<byte>>) {
    forall i :: 0 <= i < |segments| ==> IsSegment(segments[i]) && (i < |segments| - 1 ==> Ended(segments[i]))
  }

  /** A stack the loop can reach: the root, then segments other than `.` and `..`. */
  predicate StackOk(stack: seq<seq<byte>>) {
    stack != [] && stack[0] == [SLASH] && WellCut(stack) && forall i :: 0 <= i < |stack| ==> !IsDots(stack[i])
  }

  predicate AllEnded(stack: seq<seq<byte>>) {
    forall i :: 0 <= i < |stack| ==> Ended(stack[i])
  }

  lemma {:induction false} SegmentsWellCut(s: seq<byte>)
    ensures WellCut(Segments(s)) && Concat(Segments(s)) == s
    ensures s != [] ==> Segments(s) != [] && Segments(s)[0] == s[..SegmentEnd(s)]
  {
    hide IsSegment, Ended, Concat;
    if s != [] {
      var n := SegmentEnd(s);
      SegmentsWellCut(s[n..]);
      FirstIsSegment(s);
      ConcatCons(s[..n], Segments(s[n..]));
      assert s[..n] + s[n..] == s;
      WellCutCons(s[..n], Segments(s[n..]));
    } else {
      ConcatNone();
    }
  }

  lemma ConcatCons(first: seq<byte>, others: seq<seq<byte>>)
    ensures Concat([first] + others) == first + Concat(others)
  {
    assert ([first] + others)[1..] == others;
  }

  lemma FirstIsSegment(s: seq<byte>)
    requires s != []
    ensures IsSegment(s[..SegmentEnd(s)])
    ensures Segments(s[SegmentEnd(s)..]) != [] ==> Ended(s[..SegmentEnd(s)])
  {
  }

  lemma WellCutCons(first: seq<byte>, others: seq<seq<byte>>)
    requires IsSegment(first) && WellCut(others) && (others != [] ==> Ended(first))
    ensures WellCut([first] + others)
  {
    hide IsSegment, Ended;
    var all := [first] + others;
    forall i | 0 <= i < |all|
      ensures IsSegment(all[i]) && (i < |all| - 1 ==> Ended(all[i]))
    {
      if i > 0 {
        assert all[i] == others[i - 1];
      }
    }
  }

  /** Cutting a path put together from segments gives the segments back. */
  lemma {:induction false} SegmentsOfConcat(segments: seq<seq<byte>>)
    requires WellCut(segments)
    ensures Segments(Concat(segments)) == segments
  {
    if segments != [] {
      var first, rest := segments[0], Concat(segments[1..]);
      assert IsSegment(first);
      if |segments| == 1 {
        assert rest == [] && first + rest == first;
      }
      FirstSegment(first, rest);
      forall i | 0 <= i < |segments[1..]|
        ensures IsSegment(segments[1..][i]) && (i < |segments[1..]| - 1 ==> Ended(segments[1..][i]))
      {
        assert segments[1..][i] == segments[i + 1];
      }
      SegmentsOfConcat(segments[1..]);
      assert (first + rest)[|first|..] == rest;
    }
  }

  lemma {:induction false} FirstSegment(first: seq<byte>, rest: seq<byte>)
    requires IsSegment(first) && (rest == [] || Ended(first))
    ensures SegmentEnd(first + rest) == |first| && (first + rest)[..|first|] == first
  {
    if |first| > 1 {
      assert (first + rest)[1..] == first[1..] + rest;
      FirstSegment(first[1..], rest);
    }
  }

  lemma {:induction false} ApplyKeepsOk(stack: seq<seq<byte>>, segments: seq<seq<byte>>)
    requires StackOk(stack) && WellCut(segments) && (segments != [] ==> AllEnded(stack))
    ensures StackOk(ApplyAll(stack, segments))
    decreases segments
  {
    if segments != [] {
      var next := Apply(stack, segments[0]);
      assert IsSegment(segments[0]) && (|segments| > 1 ==> Ended(segments[0]));
      StepKeepsOk(stack, segments[0]);
      forall i | 0 <= i < |segments[1..]|
        ensures IsSegment(segments[1..][i]) && (i < |segments[1..]| - 1 ==> Ended(segments[1..][i]))
      {
        assert segments[1..][i] == segments[i + 1];
      }
      ApplyKeepsOk(next, segments[1..]);
    }
  }

  lemma StepKeepsOk(stack: seq<seq<byte>>, segment: seq<byte>)
    requires StackOk(stack) && AllEnded(stack) && IsSegment(segment)
    ensures StackOk(Apply(stack, segment))
    ensures Ended(segment) ==> AllEnded(Apply(stack, segment))
  {
    hide IsSegment, Ended, Component;
  }

  /** Segments other than `.` and `..` are all kept. */
  lemma {:induction false} ApplyPlain(stack: seq<seq<byte>>, segments: seq<seq<byte>>)
    requires forall i :: 0 <= i < |segments| ==> !IsDots(segments[i])
    ensures ApplyAll(stack, segments) == stack + segments
    decreases segments
  {
    if segments == [] {
      assert stack + segments == stack;
    } else {
      assert !IsDots(segments[0]);
      forall i | 0 <= i < |segments[1..]|
        ensures !IsDots(segments[1..][i])
      {
        assert segments[1..][i] == segments[i + 1];
      }
      ApplyPlain(stack + [segments[0]], segments[1..]);
      assert stack + [segments[0]] + segments[1..] == stack + segments;
    }
  }

  /** The stack of a path that starts with a slash, after its root segment and after all of them. */
  lemma RootFirst(path: seq<byte>)
    requires path != [] && path[0] == SLASH
    ensures ApplyAll([], Segments(path)) == ApplyAll([[SLASH]], Segments(path[1..]))
    ensures StackOk(ApplyAll([], Segments(path)))
  {
    assert path[..1] == [SLASH] && Component([SLASH]) == [];
    var segments := Segments(path);
    assert segments == [[SLASH]] + Segments(path[1..]);
    assert segments[0] == [SLASH] && segments[1..] == Segments(path[1..]);
    assert Apply([], [SLASH]) == [[SLASH]];
    SegmentsWellCut(path[1..]);
    ApplyKeepsOk([[SLASH]], Segments(path[1..]));
  }

  /**
   * For a path that starts with a slash the result starts with one, none of its segments is `.` or
   * `..`, and normalising it again changes nothing.
   */
  lemma NormalizedIsNormal(path: seq<byte>)
    requires path != [] && path[0] == SLASH
    ensures var out := Normalized(path).value;
            && out != [] && out[0] == SLASH && |out| <= |path|
            && (forall i :: 0 <= i < |Segments(out)| ==> !IsDots(Segments(out)[i]))
            && Normalized(out) == Some(out)
  {
    RootFirst(path);
    var stack := ApplyAll([], Segments(path));
    var out := Concat(stack);
    assert out == [SLASH] + Concat(stack[1..]);
    SegmentsOfConcat(stack);
    ApplyPlain([], stack);
    assert [] + stack == stack;
    SegmentsWellCut(path);
    ApplyShrinks([], Segments(path));
  }

  lemma {:induction false} ApplyShrinks(stack: seq<seq<byte>>, segments: seq<seq<byte>>)
    ensures |Concat(ApplyAll(stack, segments))| <= |Concat(stack)| + |Concat(segments)|
    decreases segments
  {
    if segments != [] {
      ApplyShrinks(Apply(stack, segments[0]), segments[1..]);
      ConcatAppend(stack, [segments[0]]);
      assert Concat([segments[0]]) == segments[0] + [];
      if |stack| > 1 {
        ConcatAppend(stack[..|stack| - 1], stack[|stack| - 1..]);
        assert stack[..|stack| - 1] + stack[|stack| - 1..] == stack;
      }
    }
  }

  // ------------------------------------------------------------------ what dot segments do

  lemma {:induction false} ApplyAppend(stack: seq<seq<byte>>, a: seq<seq<byte>>, b: seq<seq<byte>>)
    ensures ApplyAll(stack, a + b) == ApplyAll(ApplyAll(stack, a), b)
    decreases a
  {
    hide Apply;
    if a == [] {
      assert a + b == b;
    } else {
      assert (a + b)[0] == a[0] && (a + b)[1..] == a[1..] + b;
      ApplyAppend(Apply(stack, a[0]), a[1..], b);
    }
  }

  lemma {:induction false} SegmentsAppend(pre: seq<byte>, rest: seq<byte>)
    requires Ended(pre)
    ensures Segments(pre + rest) == Segments(pre) + Segments(rest)
    decreases |pre|
  {
    hide SegmentEnd, Segments;
    var n := SegmentEnd(pre);
    var first, later := pre[..n], pre[n..];
    FirstOfEnded(pre);
    assert pre == first + later;
    SegmentsCons(first, later);
    SegmentsCons(first, later + rest);
    Regroup(first, later, rest);
    if later == [] {
      assert later + rest == rest && Segments(later) == [] by {
        NoneToCut();
      }
    } else {
      SegmentsAppend(later, rest);
      assert [first] + (Segments(later) + Segments(rest)) == [first] + Segments(later) + Segments(rest);
    }
  }

  lemma FirstOfEnded(pre: seq<byte>)
    requires Ended(pre)
    ensures var n := SegmentEnd(pre);
            && IsSegment(pre[..n]) && Ended(pre[..n]) && (pre[n..] != [] ==> Ended(pre[n..]))
  {
  }

  lemma NoneToCut()
    ensures Segments([]) == []
  {
  }

  lemma SegmentsCons(first: seq<byte>, rest: seq<byte>)
    requires IsSegment(first) && Ended(first)
    ensures Segments(first + rest) == [first] + Segments(rest)
  {
    FirstSegment(first, rest);
    assert (first + rest)[|first|..] == rest;
  }

  /** The whole of the path behind a part that ends with a slash works on the stack of that part. */
  lemma NormalizedBehind(pre: seq<byte>, rest: seq<byte>)
    requires Ended(pre) && pre[0] == SLASH
    ensures Normalized(pre + rest) == Some(Concat(ApplyAll(ApplyAll([], Segments(pre)), Segments(rest))))
    ensures Normalized(pre) == Some(Concat(ApplyAll([], Segments(pre))))
  {
    hide ApplyAll, Segments, Concat;
    SegmentsAppend(pre, rest);
    ApplyAppend([], Segments(pre), Segments(rest));
  }

  /** The stack of `pre` and then one segment, whether or not it is the last. */
  lemma OneSegment(segment: seq<byte>, rest: seq<byte>)
    requires IsSegment(segment) && (rest == [] || Ended(segment))
    ensures Segments(segment + rest) == [segment] + Segments(rest)
  {
    FirstSegment(segment, rest);
    assert (segment + rest)[|segment|..] == rest;
  }

  lemma ApplyFirst(stack: seq<seq<byte>>, segment: seq<byte>, others: seq<seq<byte>>)
    ensures ApplyAll(stack, [segment] + others) == ApplyAll(Apply(stack, segment), others)
  {
    hide Apply;
    assert ([segment] + others)[1..] == others;
  }

  /** A dot segment, in the middle or at the end of a path. */
  predicate DotSegment(s: seq<byte>, rest: seq<byte>) {
    s == [DOT, SLASH] || (s == [DOT] && rest == [])
  }

  predicate DotDotSegment(s: seq<byte>, rest: seq<byte>) {
    s == [DOT, DOT, SLASH] || (s == [DOT, DOT] && rest == [])
  }

  /** `.` changes nothing. */
  lemma DotDropped(pre: seq<byte>, dot: seq<byte>, rest: seq<byte>)
    requires Ended(pre) && pre[0] == SLASH && DotSegment(dot, rest)
    ensures Normalized(pre + dot + rest) == Normalized(pre + rest)
  {
    hide ApplyAll, Segments, Concat, Normalized;
    Regroup(pre, dot, rest);
    NormalizedBehind(pre, dot + rest);
    NormalizedBehind(pre, rest);
    OneSegment(dot, rest);
    ApplyFirst(ApplyAll([], Segments(pre)), dot, Segments(rest));
  }

  /** `..` removes the segment in front of it. */
  lemma DotDotRemoves(pre: seq<byte>, segment: seq<byte>, dots: seq<byte>, rest: seq<byte>)
    requires Ended(pre) && pre[0] == SLASH && DotDotSegment(dots, rest)
    requires IsSegment(segment) && Ended(segment) && !IsDots(segment)
    ensures Normalized(pre + segment + dots + rest) == Normalized(pre + rest)
  {
    hide ApplyAll, Segments, Concat, Normalized, IsSegment;
    var stack := ApplyAll([], Segments(pre));
    assert pre + segment + dots + rest == pre + (segment + (dots + rest));
    NormalizedBehind(pre, segment + (dots + rest));
    NormalizedBehind(pre, rest);
    OneSegment(segment, dots + rest);
    DotsAreSegment(dots, rest);
    OneSegment(dots, rest);
    ApplyFirst(stack, segment, Segments(dots + rest));
    ApplyFirst(stack + [segment], dots, Segments(rest));
    RootFirst(pre);
    assert (stack + [segment])[..|stack|] == stack;
  }

  lemma DotsAreSegment(dots: seq<byte>, rest: seq<byte>)
    requires DotDotSegment(dots, rest)
    ensures IsSegment(dots) && (rest == [] || Ended(dots)) && Component(dots) == [DOT, DOT]
  {
  }

  /** `..` at the root is dropped. */
  lemma DotDotAtRoot(dots: seq<byte>, rest: seq<byte>)
    requires DotDotSegment(dots, rest)
    ensures Normalized([SLASH] + dots + rest) == Normalized([SLASH] + rest)
  {
    hide ApplyAll, Segments, Concat, Normalized;
    Regroup([SLASH], dots, rest);
    NormalizedBehind([SLASH], dots + rest);
    NormalizedBehind([SLASH], rest);
    DotsAreSegment(dots, rest);
    OneSegment(dots, rest);
    RootAlone();
    ApplyFirst([[SLASH]], dots, Segments(rest));
  }

  lemma RootAlone()
    ensures ApplyAll([], Segments([SLASH])) == [[SLASH]]
  {
    RootFirst([SLASH]);
  }

  /** A path without dot segments is left as it is. */
  lemma PlainUnchanged(path: seq<byte>)
    requires path != [] && path[0] == SLASH
    requires forall i :: 0 <= i < |Segments(path)| ==> !IsDots(Segments(path)[i])
    ensures Normalized(path) == Some(path)
  {
    SegmentsWellCut(path);
    ApplyPlain([], Segments(path));
    assert [] + Segments(path) == Segments(path);
  }

  /** The example of RFC 3986, section 5.2.4: `/a/b/c/./../../g` is `/a/g`. */
  lemma StandardExample()
    ensures Normalized([47, 97, 47, 98, 47, 99, 47, 46, 47, 46, 46, 47, 46, 46, 47, 103]) == Some([47, 97, 47, 103])
  {
    hide Normalized, Segments;
    var a, b, c, g: seq<byte> := [47, 97, 47], [98, 47], [99, 47], [103];
    assert Component(b) == [98] && Component(c) == [99];
    DotDropped(a + b + c, [46, 47], [46, 46, 47, 46, 46, 47] + g);
    DotDotRemoves(a + b, c, [46, 46, 47], [46, 46, 47] + g);
    DotDotRemoves(a, b, [46, 46, 47], g);
    assert a + b + c + [46, 47] + ([46, 46, 47, 46, 46, 47] + g)
        == [47, 97, 47, 98, 47, 99, 47, 46, 47, 46, 46, 47, 46, 46, 47, 103];
    assert a + b + c + ([46, 46, 47, 46, 46, 47] + g) == a + b + c + [46, 46, 47] + ([46, 46, 47] + g);
    assert a + b + ([46, 46, 47] + g) == a + b + [46, 46, 47] + g;
    assert a + g == [47, 97, 47, 103];
    PlainExample();
  }

  lemma PlainExample()
    ensures Normalized([47, 97, 47, 103]) == Some([47, 97, 47, 103])
  {
    var path: seq<byte> := [47, 97, 47, 103];
    var root, a, g: seq<byte> := [47], [97, 47], [103];
    assert path == root + (a + g);
    OneSegment(root, a + g);
    OneSegment(a, g);
    OneSegment(g, []);
    assert g + [] == g;
    PlainUnchanged(path);
  }

  // ------------------------------------------------------------------ the in-place run

  lemma PopTop(stack: seq<seq<byte>>)
    requires |stack| > 1
    ensures Concat(stack) == Concat(Pop(stack)) + stack[|stack| - 1]
  {
    hide Concat;
    ConcatSnoc(stack[..|stack| - 1], stack[|stack| - 1]);
    assert stack[..|stack| - 1] + [stack[|stack| - 1]] == stack;
  }

  lemma ConcatEnds(stack: seq<seq<byte>>)
    requires stack != [] && AllEnded(stack)
    ensures Concat(stack) != [] && Concat(stack)[|Concat(stack)| - 1] == SLASH
  {
    var top := stack[|stack| - 1];
    assert Ended(top);
    if |stack| == 1 {
      assert stack[1..] == [] && Concat(stack) == top + [];
    } else {
      PopTop(stack);
    }
  }

  lemma TopBehind(out: seq<byte>, below: seq<byte>, top: seq<byte>)
    requires out == below + top && IsSegment(top)
    ensures |below| < |out| && out[..|below|] == below
    ensures forall i :: |below| <= i < |out| - 1 ==> out[i] != SLASH
  {
    assert forall i :: |below| <= i < |out| ==> out[i] == top[i - |below|];
  }

  lemma PopEnded(stack: seq<seq<byte>>)
    requires |stack| > 1 && StackOk(stack) && AllEnded(stack)
    ensures Pop(stack) != [] && AllEnded(Pop(stack)) && IsSegment(stack[|stack| - 1])
  {
    hide IsSegment, Ended, IsDots;
  }

  /** Where the previous segment ends in the bytes written so far, and that no slash lies behind it
      but the last byte. */
  lemma BacktrackTarget(out: seq<byte>, stack: seq<seq<byte>>)
    requires out == Concat(stack)
    requires stack != [] ==> StackOk(stack) && AllEnded(stack)
    ensures var t := |Concat(Pop(stack))|;
            && t <= |out| && out[..t] == Concat(Pop(stack))
            && (stack != [] ==> 0 < t && out[t - 1] == SLASH && out[|out| - 1] == SLASH)
            && (|stack| == 1 ==> |out| == 1)
            && (|stack| > 1 ==> t < |out| && forall i :: t <= i < |out| - 1 ==> out[i] != SLASH)
  {
    hide AllEnded, StackOk, Concat, IsSegment;
    if |stack| > 1 {
      PopTop(stack);
      ConcatEnds(stack);
      PopEnded(stack);
      ConcatEnds(Pop(stack));
      TopBehind(out, Concat(Pop(stack)), stack[|stack| - 1]);
    } else if stack != [] {
      RootStack(stack);
      ConcatOne([SLASH]);
    }
  }

  lemma RootStack(stack: seq<seq<byte>>)
    requires |stack| == 1 && StackOk(stack)
    ensures stack == [[SLASH]]
  {
  }

  /** The backtracking loops: from the end of the written bytes back behind the previous slash. */
  method Backtrack(a: array<byte>, end: nat, ghost stack: seq<seq<byte>>) returns (d: nat)
    requires end <= a.Length && a[..end] == Concat(stack)
    requires stack != [] ==> StackOk(stack) && AllEnded(stack)
    ensures d <= end && a[..d] == Concat(Pop(stack))
  {
    hide StackOk, AllEnded, Concat, Pop;
    d := end;
    ghost var out, target := a[..end], |Concat(Pop(stack))|;
    BacktrackTarget(out, stack);
    if stack == [] {
      ConcatNone();
    }
    assert forall i :: 0 <= i < end ==> a[i] == out[i];
    if d > 1 && a[d - 1] == SLASH {
      d := d - 1;
    }
    while d > 0 && a[d - 1] != SLASH
      invariant target <= d <= end
    {
      d := d - 1;
    }
    assert d == target;
    assert a[..d] == out[..d];
  }

  /** `parse_uri_component`: the position behind the next slash, or the end. */
  method NextComponent(a: array<byte>, s: nat, end: nat) returns (stop: nat, next: nat)
    requires s < end <= a.Length
    ensures s < next <= end && next == s + SegmentEnd(a[s..end])
    ensures s <= stop <= next && a[s..stop] == Component(a[s..next])
  {
    stop := s;
    while stop < end && a[stop] != SLASH
      invariant s <= stop <= end
      invariant forall i :: s <= i < stop ==> a[i] != SLASH
    {
      stop := stop + 1;
    }
    next := if stop < end then stop + 1 else stop;
    SegmentEndIs(a[s..end], next - s);
    assert a[s..next][..stop - s] == a[s..stop];
  }

  lemma {:induction false} SegmentEndIs(s: seq<byte>, n: nat)
    requires 0 < n <= |s| && (forall i :: 0 <= i < n - 1 ==> s[i] != SLASH)
    requires s[n - 1] == SLASH || n == |s|
    ensures SegmentEnd(s) == n
  {
    if n > 1 {
      SegmentEndIs(s[1..], n - 1);
    }
  }

  lemma SegmentStep(path: seq<byte>, s: nat, next: nat)
    requires s < next <= |path| && next == s + SegmentEnd(path[s..])
    ensures Segments(path[s..]) == [path[s..next]] + Segments(path[next..])
    ensures IsSegment(path[s..next]) && (next < |path| ==> Ended(path[s..next]))
    ensures path[s] == SLASH ==> path[s..next] == [SLASH]
    ensures forall stack ::
              ApplyAll(stack, Segments(path[s..])) == ApplyAll(Apply(stack, path[s..next]), Segments(path[next..]))
  {
    hide Segments, SegmentEnd, ApplyAll, Apply;
    var rest := path[s..];
    assert rest[..next - s] == path[s..next] && rest[next - s..] == path[next..];
    FirstCut(rest);
    forall stack
      ensures ApplyAll(stack, Segments(rest)) == ApplyAll(Apply(stack, path[s..next]), Segments(path[next..]))
    {
      ApplyFirst(stack, path[s..next], Segments(path[next..]));
    }
  }

  lemma FirstCut(s: seq<byte>)
    requires s != []
    ensures var n := SegmentEnd(s);
            && Segments(s) == [s[..n]] + Segments(s[n..])
            && IsSegment(s[..n]) && (n < |s| ==> Ended(s[..n])) && (s[0] == SLASH ==> s[..n] == [SLASH])
  {
    hide IsSegment, Ended, SegmentEnd;
    CutEnds(s);
  }

  lemma CutEnds(s: seq<byte>)
    requires s != []
    ensures var n := SegmentEnd(s);
            IsSegment(s[..n]) && (n < |s| ==> Ended(s[..n])) && (s[0] == SLASH ==> s[..n] == [SLASH])
  {
    if s[0] == SLASH {
      assert SegmentEnd(s) == 1;
    }
  }

  lemma FirstApply(segment: seq<byte>)
    requires segment == [SLASH]
    ensures Apply([], segment) == [[SLASH]] && StackOk([[SLASH]]) && AllEnded([[SLASH]])
  {
    assert Component(segment) == [];
  }

  lemma ConcatRoot(stack: seq<seq<byte>>)
    requires StackOk(stack)
    ensures Concat(stack) != []
  {
  }

  /** `memmove` of `n` bytes at `src` down to `dst`. */
  method CopyDown(a: array<byte>, dst: nat, src: nat, n: nat)
    requires dst <= src && src + n <= a.Length
    modifies a
    ensures a[..dst + n] == old(a[..dst]) + old(a[src..src + n])
    ensures forall i :: src + n <= i < a.Length ==> a[i] == old(a[i])
  {
    ghost var all := a[..];
    forall i | 0 <= i < n {
      a[dst + i] := a[src + i];
    }
    assert a[..dst] == all[..dst] && a[dst..dst + n] == all[src..src + n];
    assert a[..dst + n] == a[..dst] + a[dst..dst + n];
  }

  /** One round of the loop: the component at `s` is dropped, backtracks or moves down to `d`. */
  method TakeComponent(a: array<byte>, len: nat, s: nat, d0: nat, ghost stack: seq<seq<byte>>)
    returns (next: nat, d: nat)
    requires d0 <= s < len <= a.Length && a[..d0] == Concat(stack)
    requires stack != [] ==> StackOk(stack) && AllEnded(stack)
    modifies a
    ensures s < next <= len && next == s + SegmentEnd(old(a[s..len]))
    ensures d <= next && a[..d] == Concat(Apply(stack, old(a[s..len])[..next - s]))
    ensures a[next..len] == old(a[next..len])
  {
    hide StackOk, AllEnded, Pop, Component, Concat, SegmentEnd;
    d := d0;
    var stop;
    stop, next := NextComponent(a, s, len);
    assert a[s..len][..next - s] == a[s..next];
    if a[s..stop] == [DOT] {
    } else if a[s..stop] == [DOT, DOT] {
      d := Backtrack(a, d, stack);
    } else {
      ConcatSnoc(stack, a[s..next]);
      CopyDown(a, d, s, next - s);
      d := d + (next - s);
    }
  }

  /** `mg_normalize_uri_path` with the output written over the input. */
  method NormalizeInPlace(a: array<byte>, len: nat) returns (ok: bool, outLen: nat)
    requires len <= a.Length
    modifies a
    ensures ok == Normalized(old(a[..len])).Some?
    ensures !ok ==> outLen == 0 && a[..] == old(a[..])
    ensures ok ==> outLen <= len && a[..outLen] == Normalized(old(a[..len])).value
  {
    hide StackOk, AllEnded, Apply, ApplyAll, Segments, Ended;
    if len == 0 || a[0] != SLASH {
      return false, 0;
    }
    ghost var path := a[..len];
    ghost var stack: seq<seq<byte>> := [];
    var s, d := 0, 0;
    assert path[0..] == path;
    while s < len
      invariant 0 <= d <= s <= len
      invariant a[s..len] == path[s..] && a[..d] == Concat(stack)
      invariant ApplyAll([], Segments(path)) == ApplyAll(stack, Segments(path[s..]))
      invariant if s == 0 then stack == [] else StackOk(stack) && (s < len ==> AllEnded(stack))
    {
      var next;
      next, d := TakeComponent(a, len, s, d, stack);
      assert a[next..len] == path[s..][next - s..] == path[next..];
      assert path[s..][..next - s] == path[s..next];
      SegmentStep(path, s, next);
      if s == 0 {
        FirstApply(path[s..next]);
      } else {
        StepKeepsOk(stack, path[s..next]);
      }
      stack := Apply(stack, path[s..next]);
      s := next;
    }
    ConcatRoot(stack);
    NoSegments(stack, path[s..]);
    if d == 0 {
      assert false;   // the fallback that writes a lone slash is never needed
    }
    return true, d;
  }

  lemma NoSegments(stack: seq<seq<byte>>, rest: seq<byte>)
    requires rest == []
    ensures ApplyAll(stack, Segments(rest)) == stack
  {
  }
}
