/** DNS names (RFC 1035, section 4.1.4): `mg_dns_encode_name` and `mg_dns_uncompress_name`. */
module Dns {
  import opened Bytes
  import M = Mbuf

  const DOT: byte := 46
  const MAX_HOPS: nat := 15

  // ------------------------------------------------------------------ names and their labels

  function DotAt(s: seq<byte>): (n: nat)
    ensures n <= |s| && (n < |s| ==> s[n] == DOT) && DOT !in s[..n]
  {
    if s == [] || s[0] == DOT then 0
    else
      assert s[..1 + DotAt(s[1..])] == [s[0]] + s[1..][..DotAt(s[1..])];
      1 + DotAt(s[1..])
  }

  /** The labels of a dotted name; a name that ends with a dot has an empty last one. */
  function Split(s: seq<byte>): (labels: seq<seq<byte>>)
    ensures labels != []
    decreases |s|
  {
    if DotAt(s) == |s| then [s] else [s[..DotAt(s)]] + Split(s[DotAt(s) + 1..])
  }

  /** Every label with a dot behind it. */
  function Dotted(labels: seq<seq<byte>>): seq<byte> {
    if labels == [] then [] else labels[0] + [DOT] + Dotted(labels[1..])
  }

  function Join(labels: seq<seq<byte>>): seq<byte> {
    var all := Dotted(labels);
    if all == [] then [] else all[..|all| - 1]
  }

  lemma {:induction false} JoinSplit(s: seq<byte>)
    ensures Dotted(Split(s)) == s + [DOT] && Join(Split(s)) == s
    decreases |s|
  {
    hide DotAt;
    var d := DotAt(s);
    if d < |s| {
      JoinSplit(s[d + 1..]);
      assert Split(s)[1..] == Split(s[d + 1..]);
      assert s == s[..d] + [DOT] + s[d + 1..];
    } else {
      assert Split(s)[1..] == [];
    }
  }

  /** Labels of the length RFC 1035 allows. */
  predicate AllProper(labels: seq<seq<byte>>) {
    forall i :: 0 <= i < |labels| ==> 1 <= |labels[i]| <= 63
  }

  // ------------------------------------------------------------------ encoding

  /** What is appended for a name, and whether no label was too long for the encoder. */
  function Emit(s: seq<byte>): (r: (seq<byte>, bool))
    ensures r.1 ==> r.0 != []
    decreases |s|
  {
    var d := DotAt(s);
    if d > 127 then ([], false)
    else if d == |s| then ([d] + s + [0], true)
    else
      var rest := Emit(s[d + 1..]);
      ([d] + s[..d] + rest.0, rest.1)
  }

  /** `strchr` for the dot: stops at the end of the string. */
  method FindDot(name: seq<byte>, from: nat) returns (at: nat)
    requires from <= |name|
    ensures at == from + DotAt(name[from..])
  {
    at := from;
    while at < |name| && name[at] != DOT
      invariant from <= at <= |name| && DotAt(name[from..]) == at - from + DotAt(name[at..])
    {
      assert name[at..][1..] == name[at + 1..];
      at := at + 1;
    }
  }

  /** `mg_dns_encode_name`. */
  method EncodeName(io: M.Mbuf, name: seq<byte>) returns (n: int)
    requires io.Valid()
    modifies io, io.buf
    ensures io.Valid() && io.Contents() == old(io.Contents()) + Emit(name).0
    ensures n == if Emit(name).1 then |Emit(name).0| else -1
  {
    hide DotAt, Emit, Underway, M.Mbuf.Contents;
    ghost var sent: seq<byte> := [];
    var pos, p := io.len, 0;
    var more := true;
    UnderwayStart(name);
    assert io.Contents() == old(io.Contents()) + sent;
    while more
      invariant p <= |name| && io.Valid() && (io.buf == old(io.buf) || fresh(io.buf))
      invariant io.Contents() == old(io.Contents()) + sent
      invariant Underway(name, p, sent, more)
      decreases more, |name| - p
    {
      var s := FindDot(name, p);
      UnderwayStep(name, p, sent, s);
      if s - p > 127 {
        return -1;
      }
      var chunk := [s - p] + name[p..s];
      io.Append(chunk);
      Regroup(old(io.Contents()), sent, chunk);
      sent := sent + chunk;
      more := s < |name|;
      if more {
        p := s + 1;
      }
    }
    UnderwayEnd(name, p, sent);
    io.Append([0]);
    Regroup(old(io.Contents()), sent, [0]);
    return io.len - pos;
  }

  /** `sent` has been appended for the part of the name before `p`. */
  ghost predicate Underway(name: seq<byte>, p: nat, sent: seq<byte>, more: bool) {
    && p <= |name|
    && if more then Emit(name) == (sent + Emit(name[p..]).0, Emit(name[p..]).1) else Emit(name) == (sent + [0], true)
  }

  lemma UnderwayStart(name: seq<byte>)
    ensures Underway(name, 0, [], true)
  {
    hide Emit;
    assert name[0..] == name && [] + Emit(name).0 == Emit(name).0;
  }

  lemma UnderwayStep(name: seq<byte>, p: nat, sent: seq<byte>, s: nat)
    requires Underway(name, p, sent, true) && s == p + DotAt(name[p..])
    ensures s <= |name|
    ensures s - p > 127 ==> Emit(name) == (sent, false)
    ensures s - p <= 127 ==> Underway(name, if s < |name| then s + 1 else p, sent + ([s - p] + name[p..s]), s < |name|)
  {
    hide DotAt, Emit;
    EmitUnfold(name[p..]);
    Parts(name, p, s);
    if s - p > 127 {
      assert sent + [] == sent;
    } else {
      var chunk := [s - p] + name[p..s];
      if s < |name| {
        Regroup(sent, chunk, Emit(name[s + 1..]).0);
      } else {
        Regroup(sent, chunk, [0]);
      }
    }
  }

  /** The label from `p` to `s` and what follows it, seen from `p`. */
  lemma Parts(name: seq<byte>, p: nat, s: nat)
    requires p <= s <= |name|
    ensures name[p..][..s - p] == name[p..s] && |name[p..]| == |name| - p
    ensures s < |name| ==> name[p..][s - p + 1..] == name[s + 1..]
  {
  }

  lemma EmitUnfold(s: seq<byte>)
    ensures var d := DotAt(s);
            && (d > 127 ==> Emit(s) == ([], false))
            && (d <= 127 && d == |s| ==> Emit(s) == ([d] + s[..d] + [0], true))
            && (d <= 127 && d < |s| ==> Emit(s) == ([d] + s[..d] + Emit(s[d + 1..]).0, Emit(s[d + 1..]).1))
  {
    hide DotAt;
    assert s[..|s|] == s;
  }

  lemma UnderwayEnd(name: seq<byte>, p: nat, sent: seq<byte>)
    requires Underway(name, p, sent, false)
    ensures Emit(name) == (sent + [0], true)
  {
  }

  // ------------------------------------------------------------------ decoding

  /** Where the compression pointer at `at` leads. */
  function Target(pkt: seq<byte>, at: nat): nat
    requires at + 1 < |pkt| && pkt[at] >= 0xc0
  {
    (pkt[at] - 0xc0) as int * 256 + pkt[at + 1]
  }

  /** The loop of `mg_dns_uncompress_name` from `at` on, after `hops` pointers and with `out` written to
      a buffer of `cap` bytes. It ends on every packet, and never writes past the buffer. */
  function Walk(pkt: seq<byte>, at: nat, hops: nat, out: seq<byte>, cap: nat): (name: seq<byte>)
    requires at < |pkt| && hops <= MAX_HOPS && |out| <= cap
    ensures |name| <= cap
    decreases MAX_HOPS - hops, |pkt| - at
  {
    if pkt[at] == 0 then if out == [] then [] else out[..|out| - 1]
    else if at + 1 >= |pkt| then []
    else if pkt[at] >= 0xc0 then
      if Target(pkt, at) >= |pkt| || hops == MAX_HOPS then [] else Walk(pkt, Target(pkt, at), hops + 1, out, cap)
    else if pkt[at] > 63 then []
    else
      var n := Min(pkt[at], cap - |out|);
      if at + 1 + n >= |pkt| then []
      else
        var more := out + pkt[at + 1..at + 1 + n];
        if |more| == cap then more else Walk(pkt, at + 1 + n, hops, more + [DOT], cap)
  }

  /** `mg_dns_uncompress_name`: the bytes it leaves in a buffer of `cap` bytes. */
  function Uncompress(pkt: seq<byte>, at: nat, cap: nat): (name: seq<byte>)
    ensures |name| <= cap
  {
    if at >= |pkt| then [] else Walk(pkt, at, 0, [], cap)
  }

  /** The labels a name at `at` stands for (RFC 1035, section 4.1.4), when it is well formed and needs
      at most the allowed number of pointers. Nothing here depends on a buffer. */
  function LabelsAt(pkt: seq<byte>, at: nat, hops: nat): Option<seq<seq<byte>>>
    requires hops <= MAX_HOPS
    decreases MAX_HOPS - hops, |pkt| - at
  {
    if at >= |pkt| then None
    else if pkt[at] == 0 then Some([])
    else if at + 1 >= |pkt| then None
    else if pkt[at] >= 0xc0 then
      if hops == MAX_HOPS then None else LabelsAt(pkt, Target(pkt, at), hops + 1)
    else if pkt[at] > 63 || at + 1 + pkt[at] >= |pkt| then None
    else
      match LabelsAt(pkt, at + 1 + pkt[at], hops)
      case None => None
      case Some(labels) => Some([pkt[at + 1..at + 1 + pkt[at]]] + labels)
  }

  function Upto(s: seq<byte>, cap: nat): (r: seq<byte>)
    ensures |r| <= cap && r <= s
  {
    if |s| <= cap then s else s[..cap]
  }

  function WithoutLast(s: seq<byte>): seq<byte> {
    if s == [] then [] else s[..|s| - 1]
  }

  lemma {:induction false} WalkResolves(pkt: seq<byte>, at: nat, hops: nat, out: seq<byte>, cap: nat)
    requires at < |pkt| && hops <= MAX_HOPS && |out| <= cap
    ensures match LabelsAt(pkt, at, hops)
            case Some(labels) => Walk(pkt, at, hops, out, cap) == Upto(WithoutLast(out + Dotted(labels)), cap)
            case None => Walk(pkt, at, hops, out, cap) == [] || |Walk(pkt, at, hops, out, cap)| == cap
    decreases MAX_HOPS - hops, |pkt| - at
  {
    if pkt[at] == 0 {
      assert out + [] == out;
    } else if at + 1 < |pkt| {
      if pkt[at] >= 0xc0 {
        if Target(pkt, at) < |pkt| && hops < MAX_HOPS {
          WalkResolves(pkt, Target(pkt, at), hops + 1, out, cap);
        }
      } else if pkt[at] <= 63 && at + 1 + pkt[at] < |pkt| {
        LabelResolves(pkt, at, hops, out, cap);
      } else if pkt[at] <= 63 && at + 1 + Min(pkt[at], cap - |out|) < |pkt| {
        assert Min(pkt[at], cap - |out|) == cap - |out|;
      }
    }
  }

  /** One label: it is written, or the part of it that fills the buffer. */
  lemma LabelWalk(pkt: seq<byte>, at: nat, hops: nat, out: seq<byte>, cap: nat, first: seq<byte>, next: nat)
    requires at < |pkt| && hops <= MAX_HOPS && |out| <= cap
    requires 0 < pkt[at] <= 63 && next == at + 1 + pkt[at] < |pkt| && first == pkt[at + 1..next]
    ensures |out| + |first| >= cap ==> Walk(pkt, at, hops, out, cap) == out + first[..cap - |out|]
    ensures |out| + |first| < cap ==> Walk(pkt, at, hops, out, cap) == Walk(pkt, next, hops, out + first + [DOT], cap)
  {
    if |out| + |first| >= cap {
      assert pkt[at + 1..at + 1 + (cap - |out|)] == first[..cap - |out|];
      assert |first| == cap - |out| ==> first[..cap - |out|] == first;
    }
  }

  lemma DottedCons(out: seq<byte>, first: seq<byte>, labels: seq<seq<byte>>)
    ensures out + Dotted([first] + labels) == out + first + [DOT] + Dotted(labels)
  {
    assert ([first] + labels)[1..] == labels;
  }

  lemma {:induction false} LabelResolves(pkt: seq<byte>, at: nat, hops: nat, out: seq<byte>, cap: nat)
    requires at < |pkt| && hops <= MAX_HOPS && |out| <= cap
    requires 0 < pkt[at] <= 63 && at + 1 + pkt[at] < |pkt|
    ensures match LabelsAt(pkt, at, hops)
            case Some(labels) => Walk(pkt, at, hops, out, cap) == Upto(WithoutLast(out + Dotted(labels)), cap)
            case None => Walk(pkt, at, hops, out, cap) == [] || |Walk(pkt, at, hops, out, cap)| == cap
    decreases MAX_HOPS - hops, |pkt| - at, 0
  {
    hide Walk, Upto, WithoutLast, Dotted;
    var next := at + 1 + pkt[at];
    var first := pkt[at + 1..next];
    if |out| + |first| < cap {
      WalkResolves(pkt, next, hops, out + first + [DOT], cap);
    }
    LabelWalk(pkt, at, hops, out, cap, first, next);
    if LabelsAt(pkt, next, hops).Some? {
      var labels := LabelsAt(pkt, next, hops).value;
      DottedCons(out, first, labels);
      if |out| + |first| >= cap {
        Overfull(out, first, Dotted(labels), cap);
      }
    }
  }

  lemma Overfull(out: seq<byte>, first: seq<byte>, later: seq<byte>, cap: nat)
    requires |out| <= cap <= |out| + |first|
    ensures Upto(WithoutLast(out + first + [DOT] + later), cap) == out + first[..cap - |out|]
  {
    var all := out + first + [DOT] + later;
    assert WithoutLast(all)[..cap] == all[..cap] == out + first[..cap - |out|];
  }

  /** A well-formed name is written out with its labels joined by dots, cut to the buffer; anything
      else gives nothing, unless the buffer was full before the defect was reached. */
  lemma UncompressResolves(pkt: seq<byte>, at: nat, cap: nat)
    ensures match LabelsAt(pkt, at, 0)
            case Some(labels) => Uncompress(pkt, at, cap) == Upto(Join(labels), cap)
            case None => Uncompress(pkt, at, cap) == [] || |Uncompress(pkt, at, cap)| == cap
  {
    if at < |pkt| {
      WalkResolves(pkt, at, 0, [], cap);
      if LabelsAt(pkt, at, 0).Some? {
        var labels := LabelsAt(pkt, at, 0).value;
        assert [] + Dotted(labels) == Dotted(labels);
      }
    }
  }

  /** One label of the loop: as much as fits is copied, and a dot unless the buffer is full. */
  method CopyLabel(pkt: seq<byte>, data: nat, chunkLen: nat, dst: array<byte>, d: nat) returns (end: nat, full: bool)
    requires data + chunkLen <= |pkt| && d + chunkLen <= dst.Length
    modifies dst
    ensures full == (d + chunkLen == dst.Length)
    ensures var more := old(dst[..d]) + pkt[data..data + chunkLen];
            end <= dst.Length && dst[..end] == if full then more else more + [DOT]
  {
    forall i | 0 <= i < chunkLen {
      dst[d + i] := pkt[data + i];
    }
    end := d + chunkLen;
    assert dst[..end] == old(dst[..d]) + pkt[data..data + chunkLen];
    full := end == dst.Length;
    if !full {
      dst[end] := DOT;
      end := end + 1;
    }
  }

  /** `mg_dns_uncompress_name`, writing to `dst`. */
  method UncompressName(pkt: seq<byte>, at: nat, dst: array<byte>) returns (n: nat)
    modifies dst
    ensures n <= dst.Length && dst[..n] == Uncompress(pkt, at, dst.Length)
  {
    hide Walk, Target;
    if at >= |pkt| {
      return 0;
    }
    var data, d, numPtrs := at, 0, 0;
    while pkt[data] != 0
      invariant 0 <= data < |pkt| && 0 <= d <= dst.Length && 0 <= numPtrs <= MAX_HOPS
      invariant Walk(pkt, data, numPtrs, dst[..d], dst.Length) == Uncompress(pkt, at, dst.Length)
      decreases MAX_HOPS - numPtrs, |pkt| - data
    {
      WalkStep(pkt, data, numPtrs, dst[..d], dst.Length);
      var chunkLen, leeway: int := pkt[data], dst.Length - d;
      data := data + 1;
      if data >= |pkt| {
        return 0;
      }
      if chunkLen >= 0xc0 {
        var off := Target(pkt, data - 1);
        if off >= |pkt| {
          return 0;
        }
        numPtrs := numPtrs + 1;
        if numPtrs > 15 {
          return 0;
        }
        data := off;
        continue;
      }
      if chunkLen > 63 {
        return 0;
      }
      if chunkLen > leeway {
        chunkLen := leeway;
      }
      if data + chunkLen >= |pkt| {
        return 0;
      }
      var full;
      d, full := CopyLabel(pkt, data, chunkLen, dst, d);
      if full {
        return d;
      }
      data := data + chunkLen;
    }
    WalkStep(pkt, data, numPtrs, dst[..d], dst.Length);
    if d != 0 {
      d := d - 1;
      assert dst[..d + 1][..d] == dst[..d];
      dst[d] := 0;
    }
    return d;
  }

  lemma WalkStep(pkt: seq<byte>, at: nat, hops: nat, out: seq<byte>, cap: nat)
    requires at < |pkt| && hops <= MAX_HOPS && |out| <= cap
    ensures Walk(pkt, at, hops, out, cap) ==
            if pkt[at] == 0 then if out == [] then [] else out[..|out| - 1]
            else if at + 1 >= |pkt| then []
            else if pkt[at] >= 0xc0 then
              if Target(pkt, at) >= |pkt| || hops == MAX_HOPS then []
              else Walk(pkt, Target(pkt, at), hops + 1, out, cap)
            else if pkt[at] > 63 then []
            else
              var n := Min(pkt[at], cap - |out|);
              if at + 1 + n >= |pkt| then []
              else
                var more := out + pkt[at + 1..at + 1 + n];
                if |more| == cap then more else Walk(pkt, at + 1 + n, hops, more + [DOT], cap)
  {
  }

  // ------------------------------------------------------------------ cycles

  /** Offsets from which the end of a name is never reached. */
  ghost predicate Endless(pkt: seq<byte>, loop: set<nat>) {
    forall at :: at in loop ==>
      && at < |pkt| && pkt[at] != 0
      && (pkt[at] >= 0xc0 && at + 1 < |pkt| ==> Target(pkt, at) in loop)
      && (pkt[at] <= 63 && at + 1 + pkt[at] < |pkt| ==> at + 1 + pkt[at] in loop)
  }

  lemma {:induction false} EndlessUnresolved(pkt: seq<byte>, loop: set<nat>, at: nat, hops: nat)
    requires Endless(pkt, loop) && at in loop && hops <= MAX_HOPS
    ensures LabelsAt(pkt, at, hops).None?
    decreases MAX_HOPS - hops, |pkt| - at
  {
    hide Target;
    if at + 1 < |pkt| {
      if pkt[at] >= 0xc0 {
        if hops < MAX_HOPS {
          EndlessUnresolved(pkt, loop, Target(pkt, at), hops + 1);
        }
      } else if pkt[at] <= 63 && at + 1 + pkt[at] < |pkt| {
        EndlessUnresolved(pkt, loop, at + 1 + pkt[at], hops);
      }
    }
  }

  /** A name that runs in a circle, through labels or not, gives nothing or fills the buffer. */
  lemma CyclesEnd(pkt: seq<byte>, loop: set<nat>, at: nat, cap: nat)
    requires Endless(pkt, loop) && at in loop
    ensures Uncompress(pkt, at, cap) == [] || |Uncompress(pkt, at, cap)| == cap
  {
    EndlessUnresolved(pkt, loop, at, 0);
    UncompressResolves(pkt, at, cap);
  }

  // ------------------------------------------------------------------ round trip

  lemma {:induction false} LabelsOfEncoded(front: seq<byte>, s: seq<byte>, rest: seq<byte>, hops: nat)
    requires AllProper(Split(s)) && hops <= MAX_HOPS
    ensures Emit(s).1 && LabelsAt(front + Emit(s).0 + rest, |front|, hops) == Some(Split(s))
    decreases |s|
  {
    hide DotAt, Emit, Split, AllProper, LabelsAt;
    var d := DotAt(s);
    EmitUnfold(s);
    ProperFirst(s);
    var chunk := [d] + s[..d];
    var pkt := front + Emit(s).0 + rest;
    if d < |s| {
      LabelsOfEncoded(front + chunk, s[d + 1..], rest, hops);
      assert pkt == front + chunk + Emit(s[d + 1..]).0 + rest;
    } else {
      assert pkt == front + chunk + [0] + rest;
      LabelsEnd(pkt, |front| + 1 + d, hops);
      assert [s[..d]] + [] == [s[..d]];
    }
    LabelsStep(pkt, |front|, hops, d, s[..d]);
  }

  lemma SplitUnfold(s: seq<byte>)
    ensures DotAt(s) == |s| ==> Split(s) == [s[..|s|]]
    ensures DotAt(s) < |s| ==> Split(s) == [s[..DotAt(s)]] + Split(s[DotAt(s) + 1..])
  {
    hide DotAt;
    assert s[..|s|] == s;
  }

  lemma ProperFirst(s: seq<byte>)
    ensures var d := DotAt(s);
            && Split(s) == (if d == |s| then [s[..d]] else [s[..d]] + Split(s[d + 1..]))
            && (AllProper(Split(s)) <==> 1 <= d <= 63 && (d < |s| ==> AllProper(Split(s[d + 1..]))))
  {
    hide DotAt, Split, AllProper;
    var d := DotAt(s);
    SplitUnfold(s);
    if d < |s| {
      ProperCons(s[..d], Split(s[d + 1..]));
    } else {
      ProperCons(s[..d], []);
      ProperNone();
      assert [s[..d]] + [] == [s[..d]];
    }
  }

  lemma ProperNone()
    ensures AllProper([])
  {
  }

  lemma ProperCons(first: seq<byte>, others: seq<seq<byte>>)
    ensures AllProper([first] + others) <==> 1 <= |first| <= 63 && AllProper(others)
  {
    var all := [first] + others;
    assert all[0] == first;
    assert forall i :: 0 <= i < |others| ==> others[i] == all[i + 1];
    assert forall i :: 0 < i < |all| ==> all[i] == others[i - 1];
  }

  lemma LabelsEnd(pkt: seq<byte>, at: nat, hops: nat)
    requires at < |pkt| && pkt[at] == 0 && hops <= MAX_HOPS
    ensures LabelsAt(pkt, at, hops) == Some([])
  {
  }

  lemma LabelsStep(pkt: seq<byte>, at: nat, hops: nat, n: nat, first: seq<byte>)
    requires 1 <= n <= 63 && at + 1 + n < |pkt| && hops <= MAX_HOPS
    requires pkt[at] == n && pkt[at + 1..at + 1 + n] == first
    ensures var more := LabelsAt(pkt, at + 1 + n, hops);
            LabelsAt(pkt, at, hops) == if more.None? then None else Some([first] + more.value)
  {
  }

  lemma {:induction false} ImproperLost(front: seq<byte>, s: seq<byte>, rest: seq<byte>, hops: nat,
                                        out: seq<byte>, cap: nat)
    requires Emit(s).1 && !AllProper(Split(s)) && 0 < |out| + |s| <= cap && hops <= MAX_HOPS
    ensures |front| < |front + Emit(s).0 + rest|
    ensures Walk(front + Emit(s).0 + rest, |front|, hops, out, cap) != out + s
    decreases |s|
  {
    hide DotAt, Emit, Split, AllProper, Walk;
    var d := DotAt(s);
    EmitUnfold(s);
    ProperFirst(s);
    var pkt := front + Emit(s).0 + rest;
    assert pkt[|front|] == d;
    if 1 <= d <= 63 {
      var chunk := [d] + s[..d];
      ImproperLost(front + chunk, s[d + 1..], rest, hops, out + s[..d] + [DOT], cap);
      FirstChunk(front, d, s[..d], Emit(s[d + 1..]).0, rest);
      LabelWalk(pkt, |front|, hops, out, cap, s[..d], |front| + 1 + d);
      assert out + s == out + s[..d] + [DOT] + s[d + 1..];
    } else {
      WalkStep(pkt, |front|, hops, out, cap);
    }
  }

  /** A label and the rest of the name, in a packet. */
  lemma FirstChunk(front: seq<byte>, d: byte, first: seq<byte>, later: seq<byte>, rest: seq<byte>)
    requires |first| == d && later != []
    ensures var pkt := front + ([d] + first + later) + rest;
            && pkt == front + ([d] + first) + later + rest
            && |front| + 1 + d < |pkt| && pkt[|front| + 1..|front| + 1 + d] == first
  {
    var pkt := front + ([d] + first) + later + rest;
    assert pkt == front + [d] + first + (later + rest);
  }

  /** Decoding an encoded name gives it back, cut to the buffer, exactly when all its labels have 1 to
      63 bytes (or it is empty), wherever in a packet it stands. */
  lemma RoundTripIff(front: seq<byte>, s: seq<byte>, rest: seq<byte>, cap: nat)
    requires Emit(s).1
    ensures var got := Uncompress(front + Emit(s).0 + rest, |front|, cap);
            && (AllProper(Split(s)) || s == [] ==> got == Upto(s, cap))
            && (|s| <= cap ==> (got == s <==> AllProper(Split(s)) || s == []))
  {
    hide Walk, DotAt, Split, AllProper, Emit, Dotted, LabelsAt;
    var pkt := front + Emit(s).0 + rest;
    EmitUnfold(s);
    if AllProper(Split(s)) {
      LabelsOfEncoded(front, s, rest, 0);
      UncompressResolves(pkt, |front|, cap);
      JoinSplit(s);
    } else if s == [] {
      assert pkt[|front|] == 0;
      WalkStep(pkt, |front|, 0, [], cap);
    } else if |s| <= cap {
      ImproperLost(front, s, rest, 0, [], cap);
      assert [] + s == s;
    }
  }

  // ------------------------------------------------------------------ compression

  /** A pointer to offset `to` of the packet (RFC 1035, section 4.1.4). */
  function Pointer(to: nat): (p: seq<byte>)
    requires to < 0x4000
    ensures |p| == 2
  {
    [0xc0 + to / 256, to % 256]
  }

  /** Labels with their lengths, and no end mark. */
  function Prefixed(labels: seq<seq<byte>>): seq<byte>
    requires AllProper(labels)
  {
    if labels == [] then [] else [|labels[0]|] + labels[0] + Prefixed(labels[1..])
  }

  lemma {:induction false} PrefixResolves(pkt: seq<byte>, at: nat, labels: seq<seq<byte>>, hops: nat)
    requires AllProper(labels) && hops <= MAX_HOPS && at + |Prefixed(labels)| < |pkt|
    requires pkt[at..at + |Prefixed(labels)|] == Prefixed(labels)
    ensures var more := LabelsAt(pkt, at + |Prefixed(labels)|, hops);
            LabelsAt(pkt, at, hops) == if more.None? then None else Some(labels + more.value)
    decreases labels
  {
    hide LabelsAt, AllProper;
    if labels == [] {
      var more := LabelsAt(pkt, at, hops);
      assert more.Some? ==> [] + more.value == more.value;
    } else {
      var first, others := labels[0], labels[1..];
      assert labels == [first] + others;
      ProperCons(first, others);
      var next := at + 1 + |first|;
      var all := Prefixed(labels);
      assert all[0] == |first| && all[1..1 + |first|] == first && all[1 + |first|..] == Prefixed(others);
      SliceParts(pkt, at, all, 1, 1 + |first|);
      SliceParts(pkt, at, all, 1 + |first|, |all|);
      LabelsStep(pkt, at, hops, |first|, first);
      PrefixResolves(pkt, next, others, hops);
      var more := LabelsAt(pkt, at + |all|, hops);
      assert more.Some? ==> [first] + (others + more.value) == labels + more.value;
    }
  }

  lemma SliceParts(pkt: seq<byte>, at: nat, all: seq<byte>, i: nat, j: nat)
    requires at + |all| <= |pkt| && pkt[at..at + |all|] == all && 0 < |all| && i <= j <= |all|
    ensures pkt[at] == all[0] && pkt[at + i..at + j] == all[i..j]
  {
    assert pkt[at] == pkt[at..at + |all|][0];
    forall k | i <= k < j
      ensures pkt[at + k] == all[k]
    {
      assert pkt[at..at + |all|][k] == pkt[at + k];
    }
  }

  lemma PointerResolves(pkt: seq<byte>, at: nat, to: nat, hops: nat)
    requires to < 0x4000 && at + 1 < |pkt| && pkt[at..at + 2] == Pointer(to) && hops < MAX_HOPS
    ensures LabelsAt(pkt, at, hops) == LabelsAt(pkt, to, hops + 1)
  {
    assert pkt[at] == pkt[at..at + 2][0] && pkt[at + 1] == pkt[at..at + 2][1];
  }

  lemma {:induction false} DottedAppend(labels: seq<seq<byte>>, others: seq<seq<byte>>)
    ensures Dotted(labels + others) == Dotted(labels) + Dotted(others)
  {
    if labels == [] {
      assert labels + others == others;
    } else {
      DottedAppend(labels[1..], others);
      assert (labels + others)[0] == labels[0] && (labels + others)[1..] == labels[1..] + others;
      Regroup(labels[0] + [DOT], Dotted(labels[1..]), Dotted(others));
    }
  }

  /**
   * Compression: a name that stands in a packet below offset 2^14, and elsewhere in the packet any labels
   * followed by a pointer to it. Decoding there gives the labels and the name, cut to the buffer.
   */
  lemma CompressedRoundTrip(front: seq<byte>, s: seq<byte>, mid: seq<byte>, labels: seq<seq<byte>>, rest: seq<byte>,
                            cap: nat)
    requires AllProper(Split(s)) && AllProper(labels) && |front| < 0x4000
    ensures var at := |front| + |Emit(s).0| + |mid|;
            var pkt := front + Emit(s).0 + mid + Prefixed(labels) + Pointer(|front|) + rest;
            Uncompress(pkt, at, cap) == Upto(Dotted(labels) + s, cap)
  {
    hide LabelsAt, Emit, Split, AllProper, Dotted, Prefixed, Pointer, Upto, Uncompress, DotAt;
    var name, at := Emit(s).0, |front| + |Emit(s).0| + |mid|;
    var later := mid + Prefixed(labels) + Pointer(|front|) + rest;
    var pkt := front + name + mid + Prefixed(labels) + Pointer(|front|) + rest;
    assert pkt == front + name + later;
    LabelsOfEncoded(front, s, later, 1);
    var to := at + |Prefixed(labels)|;
    assert pkt[to..to + 2] == Pointer(|front|);
    PointerResolves(pkt, to, |front|, 0);
    assert pkt[at..to] == Prefixed(labels);
    PrefixResolves(pkt, at, labels, 0);
    UncompressResolves(pkt, at, cap);
    JoinBehind(labels, s);
  }

  lemma JoinBehind(labels: seq<seq<byte>>, s: seq<byte>)
    ensures Join(labels + Split(s)) == Dotted(labels) + s
  {
    hide Dotted, Split;
    DottedAppend(labels, Split(s));
    JoinSplit(s);
    assert Dotted(labels) + (s + [DOT]) == Dotted(labels) + s + [DOT];
  }

  /** Each offset but the last holds a pointer to the next. */
  ghost predicate Chain(pkt: seq<byte>, ats: seq<nat>)
    decreases |ats|
  {
    && ats != [] && ats[0] < |pkt|
    && (|ats| > 1 ==>
          && ats[1] < 0x4000 && ats[0] + 1 < |pkt| && pkt[ats[0]..ats[0] + 2] == Pointer(ats[1])
          && Chain(pkt, ats[1..]))
  }

  lemma PointerWalk(pkt: seq<byte>, at: nat, to: nat, hops: nat, cap: nat)
    requires to < 0x4000 && at + 1 < |pkt| && pkt[at..at + 2] == Pointer(to) && hops <= MAX_HOPS && to < |pkt|
    ensures Walk(pkt, at, hops, [], cap) == if hops == MAX_HOPS then [] else Walk(pkt, to, hops + 1, [], cap)
  {
    assert pkt[at] == pkt[at..at + 2][0] && pkt[at + 1] == pkt[at..at + 2][1];
  }

  lemma {:induction false} ChainWalk(pkt: seq<byte>, ats: seq<nat>, hops: nat, cap: nat)
    requires Chain(pkt, ats) && hops <= MAX_HOPS
    ensures ats[|ats| - 1] < |pkt|
    ensures Walk(pkt, ats[0], hops, [], cap)
         == if hops + |ats| - 1 <= MAX_HOPS then Walk(pkt, ats[|ats| - 1], hops + |ats| - 1, [], cap) else []
    decreases |ats|
  {
    hide Walk, Pointer;
    if |ats| > 1 {
      PointerWalk(pkt, ats[0], ats[1], hops, cap);
      if hops < MAX_HOPS {
        ChainWalk(pkt, ats[1..], hops + 1, cap);
      } else {
        ChainWalk(pkt, ats[1..], hops, cap);
      }
    }
  }

  lemma InThree(pkt: seq<byte>, at: nat, part: seq<byte>)
    requires at + |part| <= |pkt| && pkt[at..at + |part|] == part
    ensures pkt[..at] + part + pkt[at + |part|..] == pkt
  {
  }

  lemma NameWalk(pkt: seq<byte>, at: nat, s: seq<byte>, hops: nat, cap: nat)
    requires AllProper(Split(s)) && hops <= MAX_HOPS && at < |pkt|
    requires at + |Emit(s).0| <= |pkt| && pkt[at..at + |Emit(s).0|] == Emit(s).0
    ensures Walk(pkt, at, hops, [], cap) == Upto(s, cap)
  {
    hide Walk, LabelsAt, Emit, Split, AllProper, Dotted, Upto, DotAt;
    InThree(pkt, at, Emit(s).0);
    LabelsOfEncoded(pkt[..at], s, pkt[at + |Emit(s).0|..], hops);
    WalkResolves(pkt, at, hops, [], cap);
    JoinSplit(s);
    assert [] + Dotted(Split(s)) == Dotted(Split(s));
  }

  /** A name behind up to 15 pointers is decoded, and behind more of them gives nothing. */
  lemma ChainDecodes(pkt: seq<byte>, ats: seq<nat>, s: seq<byte>, cap: nat)
    requires Chain(pkt, ats) && AllProper(Split(s))
    requires var at := ats[|ats| - 1]; at + |Emit(s).0| <= |pkt| && pkt[at..at + |Emit(s).0|] == Emit(s).0
    ensures Uncompress(pkt, ats[0], cap) == if |ats| <= 16 then Upto(s, cap) else []
  {
    hide Walk, Emit, Split, AllProper, Upto, Pointer;
    ChainWalk(pkt, ats, 0, cap);
    if |ats| <= 16 {
      NameWalk(pkt, ats[|ats| - 1], s, |ats| - 1, cap);
    }
  }

  /** The example of RFC 1035, section 4.1.4: `F.ISI.ARPA` at offset 20, and `FOO` with a pointer to it. */
  lemma StandardExample(front: seq<byte>, mid: seq<byte>, rest: seq<byte>, cap: nat)
    requires |front| == 20 && 14 <= cap
    ensures var pkt := front + [1, 70, 3, 73, 83, 73, 4, 65, 82, 80, 65, 0] + mid + [3, 70, 79, 79, 0xc0, 20] + rest;
            Uncompress(pkt, 32 + |mid|, cap) == [70, 79, 79, 46, 70, 46, 73, 83, 73, 46, 65, 82, 80, 65]
  {
    hide Uncompress, Emit, Split, AllProper, DotAt;
    var f, isi, arpa, foo: seq<byte> := [70], [73, 83, 73], [65, 82, 80, 65], [70, 79, 79];
    var tail: seq<byte> := isi + [DOT] + arpa;
    LastLabel(arpa);
    NextLabel(isi, arpa);
    NextLabel(f, tail);
    var s := f + [DOT] + tail;
    assert Emit(s).0 == [1, 70, 3, 73, 83, 73, 4, 65, 82, 80, 65, 0];
    OneLabel(foo);
    CompressedRoundTrip(front, s, mid, [foo], rest, cap);
    assert Prefixed([foo]) + Pointer(20) == [3, 70, 79, 79, 0xc0, 20];
    Regroup(front + Emit(s).0 + mid, Prefixed([foo]), Pointer(20));
    assert Dotted([foo]) + s == [70, 79, 79, 46, 70, 46, 73, 83, 73, 46, 65, 82, 80, 65];
  }

  lemma LastLabel(s: seq<byte>)
    requires DOT !in s && 1 <= |s| <= 63
    ensures Emit(s) == ([|s|] + s + [0], true) && AllProper(Split(s))
  {
    hide DotAt, Emit, Split;
    NoDotAt(s);
    EmitUnfold(s);
    assert s[..|s|] == s;
    ProperFirst(s);
  }

  lemma NextLabel(first: seq<byte>, s: seq<byte>)
    requires DOT !in first && 1 <= |first| <= 63 && Emit(s).1 && AllProper(Split(s))
    ensures Emit(first + [DOT] + s) == ([|first|] + first + Emit(s).0, true) && AllProper(Split(first + [DOT] + s))
  {
    hide DotAt, Emit, Split, AllProper;
    FirstDot(first, s);
    var all := first + [DOT] + s;
    assert all[..|first|] == first && all[|first| + 1..] == s;
    EmitUnfold(all);
    ProperFirst(all);
  }

  lemma {:induction false} FirstDot(first: seq<byte>, s: seq<byte>)
    requires DOT !in first
    ensures DotAt(first + [DOT] + s) == |first|
  {
    if first != [] {
      FirstDot(first[1..], s);
      assert (first + [DOT] + s)[1..] == first[1..] + [DOT] + s;
    }
  }

  lemma OneLabel(part: seq<byte>)
    requires 1 <= |part| <= 63
    ensures AllProper([part]) && Prefixed([part]) == [|part|] + part && Dotted([part]) == part + [DOT]
  {
    assert [part][1..] == [];
    assert [|part|] + part + [] == [|part|] + part && part + [DOT] + [] == part + [DOT];
  }

  /** A label of 64 bytes is written by the encoder and gives the decoder nothing. */
  lemma LongLabelLost(s: seq<byte>)
    requires |s| == 64 && DOT !in s
    ensures Emit(s).1 && Uncompress(Emit(s).0, 0, 64) == []
  {
    hide Walk;
    NoDotAt(s);
    EmitUnfold(s);
    WalkStep(Emit(s).0, 0, 0, [], 64);
  }

  /** The encoder takes labels of up to 127 bytes. */
  lemma EncodableIff(s: seq<byte>)
    requires DOT !in s
    ensures Emit(s).1 <==> |s| <= 127
  {
    NoDotAt(s);
    EmitUnfold(s);
  }

  lemma {:induction false} NoDotAt(s: seq<byte>)
    requires DOT !in s
    ensures DotAt(s) == |s|
  {
    if s != [] {
      NoDotAt(s[1..]);
    }
  }

  /** `a..b`: the empty label in the middle is taken for the end of the name. */
  lemma EmptyLabelLost()
    ensures Emit([97, DOT, DOT, 98]) == ([1, 97, 0, 1, 98, 0], true)
    ensures Uncompress([1, 97, 0, 1, 98, 0], 0, 4) == [97]
  {
    hide Walk, Emit, DotAt;
    EmptyLabelSent();
    var pkt: seq<byte> := [1, 97, 0, 1, 98, 0];
    assert [] + pkt[1..2] == [97] && [97] + [DOT] == [97, DOT] && [97, DOT][..1] == [97];
    WalkStep(pkt, 0, 0, [], 4);
    WalkStep(pkt, 2, 0, [97, DOT], 4);
  }

  lemma EmptyLabelSent()
    ensures Emit([97, DOT, DOT, 98]) == ([1, 97, 0, 1, 98, 0], true)
  {
    hide Emit, DotAt;
    var name, tail, last: seq<byte> := [97, DOT, DOT, 98], [DOT, 98], [98];
    assert name[..1] == [97] && name[2..] == tail && tail[..0] == [] && tail[1..] == last && last[..1] == last;
    FirstDots();
    EmitUnfold(last);
    var one: seq<byte> := [1];
    assert one + last + [0] == [1, 98, 0];
    EmitUnfold(tail);
    assert [0] + tail[..0] + [1, 98, 0] == [0, 1, 98, 0];
    EmitUnfold(name);
    assert one + [97] + [0, 1, 98, 0] == [1, 97, 0, 1, 98, 0];
  }

  lemma FirstDots()
    ensures DotAt([97, DOT, DOT, 98]) == 1 && DotAt([DOT, 98]) == 0 && DotAt([98]) == 1
  {
    var name: seq<byte> := [97, DOT, DOT, 98];
    assert name[1..][0] == DOT;
  }
}
