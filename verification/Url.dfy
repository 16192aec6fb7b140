/** Percent-encoding and query variables of `src/mongoose.c`, and the play URLs of `src/ms_server.c`. */
module Url {
  import opened Bytes
  import C = ChunkModel
  import M = Mbuf

  const PERCENT: byte := 37
  const AMP: byte := 38
  const PLUS: byte := 43
  const EQUALS: byte := 61
  const QUESTION: byte := 63
  const SPACE: byte := 32

  predicate IsAlnum(c: byte) {
    48 <= c <= 57 || 65 <= c <= 90 || 97 <= c <= 122
  }

  function Lower(c: byte): byte {
    if 65 <= c <= 90 then c + 32 else c
  }

  /** Names are compared without regard to the case of letters, and of letters only. */
  lemma LowerIff(a: byte, b: byte)
    ensures Lower(a) == Lower(b) <==> a == b || (65 <= a <= 90 && b == a + 32) || (65 <= b <= 90 && a == b + 32)
  {
  }

  // ------------------------------------------------------------------ percent-encoding

  /** Options of `mg_url_encode_opt`. */
  datatype Style = Style(safe: seq<byte>, upper: bool, plus: bool)

  function Hex(d: nat, upper: bool): (c: byte)
    requires d < 16
    ensures C.IsHex(c) && C.HexDigit(c) == d && IsAlnum(c)
  {
    if d < 10 then 48 + d else if upper then 55 + d else 87 + d
  }

  function EncodeChar(c: byte, style: Style): (s: seq<byte>)
    ensures s != []
  {
    if IsAlnum(c) || c in style.safe then [c]
    else if c == SPACE && style.plus then [PLUS]
    else [PERCENT, Hex(c / 16, style.upper), Hex(c % 16, style.upper)]
  }

  /** `mg_url_encode_opt`. */
  function Encode(s: seq<byte>, style: Style): seq<byte> {
    if s == [] then [] else EncodeChar(s[0], style) + Encode(s[1..], style)
  }

  /** What `mg_url_decode` decodes to when the buffer is large enough; nothing for a bad escape. */
  function Decode(s: seq<byte>, form: bool): (r: Option<seq<byte>>)
    decreases |s|
  {
    if s == [] then Some([])
    else if s[0] == PERCENT then
      if |s| > 2 && C.IsHex(s[1]) && C.IsHex(s[2]) then
        Prepend(C.HexDigit(s[1]) * 16 + C.HexDigit(s[2]), Decode(s[3..], form))
      else None
    else Prepend(if form && s[0] == PLUS then SPACE else s[0], Decode(s[1..], form))
  }

  function Prepend(c: byte, r: Option<seq<byte>>): Option<seq<byte>> {
    if r.None? then None else Some([c] + r.value)
  }

  /** Characters that would be mistaken when they stood for themselves. */
  predicate SafeSet(safe: seq<byte>) {
    PERCENT !in safe && PLUS !in safe
  }

  lemma {:induction false} DecodeEncode(s: seq<byte>, style: Style)
    requires SafeSet(style.safe)
    ensures Decode(Encode(s, style), true) == Some(s)
  {
    if s != [] {
      var rest := Encode(s[1..], style);
      DecodeEncode(s[1..], style);
      DecodeChar(s[0], rest, style);
      assert [s[0]] + s[1..] == s;
    }
  }

  lemma DecodeChar(c: byte, rest: seq<byte>, style: Style)
    requires SafeSet(style.safe)
    ensures Decode(EncodeChar(c, style) + rest, true) == Prepend(c, Decode(rest, true))
  {
    hide SafeSet;
    NotAlnum();
    var e := EncodeChar(c, style);
    SafeChar(c, style);
    assert (e + rest)[|e|..] == rest;
  }

  lemma SafeChar(c: byte, style: Style)
    requires SafeSet(style.safe)
    ensures c in style.safe ==> c != PERCENT && c != PLUS
  {
  }

  lemma NotAlnum()
    ensures !IsAlnum(PERCENT) && !IsAlnum(PLUS) && !IsAlnum(AMP)
  {
  }

  /** Form decoding undoes an encoding for all strings exactly when neither `%` nor `+` is kept as it is. */
  lemma SafeSetIff(style: Style)
    ensures SafeSet(style.safe) <==> forall s :: Decode(Encode(s, style), true) == Some(s)
  {
    if SafeSet(style.safe) {
      forall s
        ensures Decode(Encode(s, style), true) == Some(s)
      {
        DecodeEncode(s, style);
      }
    } else {
      var c := if PERCENT in style.safe then PERCENT else PLUS;
      var s := [c];
      assert s[1..] == [] && Encode(s, style) == [c] + [] == [c];
      assert Decode([], true) == Some([]) && [c][1..] == [];
      assert Decode(Encode(s, style), true) != Some(s);
    }
  }

  /** Encodings that path decoding, which leaves `+` alone, can undo. */
  predicate PathSet(style: Style) {
    PERCENT !in style.safe && (style.plus ==> SPACE in style.safe)
  }

  lemma {:induction false} DecodePath(s: seq<byte>, style: Style)
    requires PathSet(style)
    ensures Decode(Encode(s, style), false) == Some(s)
  {
    if s != [] {
      var e, rest := EncodeChar(s[0], style), Encode(s[1..], style);
      DecodePath(s[1..], style);
      assert !IsAlnum(PERCENT);
      assert (e + rest)[|e|..] == rest;
      assert [s[0]] + s[1..] == s;
    }
  }

  /** Path decoding undoes an encoding for all strings exactly when `%` is encoded and a space does not
      become `+`. */
  lemma PathSetIff(style: Style)
    ensures PathSet(style) <==> forall s :: Decode(Encode(s, style), false) == Some(s)
  {
    if PathSet(style) {
      forall s
        ensures Decode(Encode(s, style), false) == Some(s)
      {
        DecodePath(s, style);
      }
    } else {
      var c := if PERCENT in style.safe then PERCENT else SPACE;
      var s := [c];
      var e := if c == PERCENT then PERCENT else PLUS;
      assert !IsAlnum(SPACE) && !IsAlnum(PERCENT);
      assert s[1..] == [] && Encode(s, style) == [e] + [] == [e];
      assert Decode([], false) == Some([]) && [e][1..] == [];
      assert Decode(Encode(s, style), false) != Some(s);
    }
  }

  /** `/ a` in three styles: two hexadecimal cases, and a space as `+`. */
  lemma EncodedExamples()
    ensures Encode([47, 32, 97], Style([], true, false)) == [37, 50, 70, 37, 50, 48, 97]
    ensures Encode([47, 32, 97], Style([], false, false)) == [37, 50, 102, 37, 50, 48, 97]
    ensures Encode([47, 32, 97], Style([47], true, true)) == [47, 43, 97]
  {
    var s: seq<byte> := [47, 32, 97];
    assert s[1..] == [32, 97] && s[1..][1..] == [97] && s[1..][1..][1..] == [];
    ThreeEncoded(s, Style([], true, false));
    ThreeEncoded(s, Style([], false, false));
    ThreeEncoded(s, Style([47], true, true));
  }

  lemma ThreeEncoded(s: seq<byte>, style: Style)
    requires |s| == 3
    ensures Encode(s, style) == EncodeChar(s[0], style) + EncodeChar(s[1], style) + EncodeChar(s[2], style)
  {
    hide EncodeChar;
    assert Encode(s[1..][1..], style) == EncodeChar(s[2], style) + Encode(s[1..][1..][1..], style);
    Regroup(EncodeChar(s[0], style), EncodeChar(s[1], style), EncodeChar(s[2], style));
  }

  /** A cut encoding decodes to less, or not at all. */
  lemma {:induction false} CutLost(s: seq<byte>, style: Style, cut: nat)
    requires SafeSet(style.safe) && cut < |Encode(s, style)|
    ensures var r := Decode(Encode(s, style)[..cut], true); r.None? || |r.value| < |s|
  {
    var e, rest := EncodeChar(s[0], style), Encode(s[1..], style);
    var t := (e + rest)[..cut];
    if cut >= |e| {
      CutLost(s[1..], style, cut - |e|);
      assert t == e + rest[..cut - |e|];
      DecodeChar(s[0], rest[..cut - |e|], style);
    } else if cut > 0 {
      assert t == [PERCENT] || t == [PERCENT, Hex(s[0] / 16, style.upper)];
    }
  }

  /** An encoding ends no query variable early. */
  lemma {:induction false} NoAmp(s: seq<byte>, style: Style)
    requires AMP !in style.safe
    ensures AMP !in Encode(s, style)
  {
    if s != [] {
      NoAmp(s[1..], style);
    }
  }

  // ------------------------------------------------------------------ query variables

  predicate SameName(name: seq<byte>, q: seq<byte>, p: nat)
    requires p + |name| <= |q|
  {
    forall i :: 0 <= i < |name| ==> Lower(name[i]) == Lower(q[p + i])
  }

  predicate VarAt(q: seq<byte>, name: seq<byte>, p: nat) {
    p + |name| < |q| && (p == 0 || q[p - 1] == AMP) && q[p + |name|] == EQUALS && SameName(name, q, p)
  }

  /** The first position from `p` on where the variable is set. */
  function FindVar(q: seq<byte>, name: seq<byte>, p: nat): (r: Option<nat>)
    ensures r.Some? ==> VarAt(q, name, r.value)
    decreases |q| - p
  {
    if p + |name| >= |q| then None else if VarAt(q, name, p) then Some(p) else FindVar(q, name, p + 1)
  }

  /** The text up to the next `&`. */
  function ValueOf(s: seq<byte>): (v: seq<byte>)
    ensures v <= s && AMP !in v
  {
    if s == [] || s[0] == AMP then []
    else
      var v := [s[0]] + ValueOf(s[1..]);
      assert forall i :: 0 <= i < |v| ==> v[i] == if i == 0 then s[0] else ValueOf(s[1..])[i - 1];
      v
  }

  /** What `mg_get_http_var` answers: the value, or its negative code. */
  datatype Answer = Value(text: seq<byte>) | Code(n: int)

  const NO_SOURCE := -1
  const NOT_DECODED := -3
  const NO_VARIABLE := -4

  /** `mg_get_http_var` with a buffer of `cap` bytes. */
  function GetVar(q: seq<byte>, name: seq<byte>, cap: nat): Answer {
    if q == [] then Code(NO_SOURCE)
    else
      match FindVar(q, name, 0)
      case None => Code(NO_VARIABLE)
      case Some(p) =>
        var r := Decode(ValueOf(q[p + |name| + 1..]), true);
        if r.Some? && |r.value| < cap then Value(r.value) else Code(NOT_DECODED)
  }

  /** A query as its variables. */
  datatype Variable = Variable(name: seq<byte>, text: seq<byte>)

  predicate PlainVariable(v: Variable) {
    AMP !in v.name && EQUALS !in v.name && AMP !in v.text
  }

  /** `name=text` of each variable, with `&` between them. */
  function QueryText(vars: seq<Variable>): seq<byte> {
    if vars == [] then []
    else vars[0].name + [EQUALS] + vars[0].text + if |vars| == 1 then [] else [AMP] + QueryText(vars[1..])
  }

  predicate SameText(a: seq<byte>, b: seq<byte>) {
    |a| == |b| && forall i :: 0 <= i < |a| ==> Lower(a[i]) == Lower(b[i])
  }

  /** The text of the first variable with this name, upper and lower case being the same. */
  function Lookup(vars: seq<Variable>, name: seq<byte>): Option<seq<byte>> {
    if vars == [] then None
    else if SameText(name, vars[0].name) then Some(vars[0].text)
    else Lookup(vars[1..], name)
  }

  lemma {:induction false} FindBehind(front: seq<byte>, rest: seq<byte>, name: seq<byte>, p: nat)
    requires front != [] && front[|front| - 1] == AMP && p <= |rest|
    ensures var r, s := FindVar(front + rest, name, |front| + p), FindVar(rest, name, p);
            if s.None? then r.None? else r == Some(|front| + s.value)
    decreases |rest| - p
  {
    hide Lower;
    var q := front + rest;
    assert p > 0 ==> q[|front| + p - 1] == rest[p - 1];
    if p + |name| < |rest| {
      assert VarAt(q, name, |front| + p) <==> VarAt(rest, name, p) by {
        assert forall i :: 0 <= i < |rest| ==> q[|front| + i] == rest[i];
      }
      FindBehind(front, rest, name, p + 1);
    }
  }

  /** No variable begins before the next `&`. */
  lemma {:induction false} NotBeforeAmp(q: seq<byte>, name: seq<byte>, p: nat, n: nat)
    requires 0 < p <= n && n <= |q| && (forall i :: p - 1 <= i < n - 1 ==> q[i] != AMP)
    ensures FindVar(q, name, p) == FindVar(q, name, n)
    decreases n - p
  {
    hide SameName;
    if p < n {
      NotBeforeAmp(q, name, p + 1, n);
      assert !VarAt(q, name, p);
    }
  }

  lemma FirstVariable(v: Variable, rest: seq<byte>, name: seq<byte>)
    requires PlainVariable(v) && EQUALS !in name
    ensures VarAt(v.name + [EQUALS] + rest, name, 0) <==> SameText(name, v.name)
  {
    var q := v.name + [EQUALS] + rest;
    assert q[|v.name|] == EQUALS && forall i :: 0 <= i < |v.name| ==> q[i] == v.name[i];
    assert |name| < |v.name| ==> q[|name|] == v.name[|name|] != EQUALS;
    assert |v.name| < |name| ==> name[|v.name|] != EQUALS && Lower(name[|v.name|]) != Lower(q[|v.name|]);
  }

  /** `mg_get_http_var` on a query made of variables: the decoded text of the first one with the name, if
      it is well encoded and fits the buffer, and otherwise the code for what is wrong. */
  lemma {:induction false} VariablesFound(vars: seq<Variable>, name: seq<byte>, cap: nat)
    requires vars != [] && (forall v :: v in vars ==> PlainVariable(v)) && EQUALS !in name && AMP !in name
    ensures GetVar(QueryText(vars), name, cap) ==
            match Lookup(vars, name)
            case None => Code(NO_VARIABLE)
            case Some(text) =>
              var r := Decode(text, true);
              if r.Some? && |r.value| < cap then Value(r.value) else Code(NOT_DECODED)
    decreases |vars|
  {
    hide Decode, SameName, SameText;
    var v, q := vars[0], QueryText(vars);
    var tail := if |vars| == 1 then [] else [AMP] + QueryText(vars[1..]);
    assert PlainVariable(v);
    assert q == v.name + [EQUALS] + (v.text + tail);
    FirstVariable(v, v.text + tail, name);
    if SameText(name, v.name) {
      SameLength(name, v.name);
      FoundAt(q, name);
      assert q[|name| + 1..] == v.text + tail;
      ValueUpTo(v.text, tail);
    } else {
      var front := v.name + [EQUALS] + v.text;
      SkipFirst(q, name);
      if |vars| == 1 {
        assert q == front;
        NoneBehind(q, name);
      } else {
        var rest := QueryText(vars[1..]);
        assert q == front + [AMP] + rest;
        VariablesFound(vars[1..], name, cap);
        FrontPlain(v);
        NextVariable(front, rest, name, cap);
      }
    }
  }

  lemma SameLength(a: seq<byte>, b: seq<byte>)
    requires SameText(a, b)
    ensures |a| == |b|
  {
  }

  lemma FoundAt(q: seq<byte>, name: seq<byte>)
    requires VarAt(q, name, 0)
    ensures FindVar(q, name, 0) == Some(0)
  {
  }

  lemma SkipFirst(q: seq<byte>, name: seq<byte>)
    requires !VarAt(q, name, 0)
    ensures FindVar(q, name, 0) == FindVar(q, name, 1)
  {
  }

  lemma FrontPlain(v: Variable)
    requires PlainVariable(v)
    ensures AMP !in v.name + [EQUALS] + v.text
  {
  }

  lemma {:induction false} ValueUpTo(text: seq<byte>, tail: seq<byte>)
    requires AMP !in text && (tail == [] || tail[0] == AMP)
    ensures ValueOf(text + tail) == text
  {
    if text == [] {
      assert text + tail == tail;
    } else {
      ValueUpTo(text[1..], tail);
      assert (text + tail)[1..] == text[1..] + tail;
      assert [text[0]] + text[1..] == text;
    }
  }

  lemma NoneBehind(q: seq<byte>, name: seq<byte>)
    requires q != [] && AMP !in q
    ensures FindVar(q, name, 1).None?
  {
    NotBeforeAmp(q, name, 1, |q|);
  }

  lemma NextVariable(front: seq<byte>, rest: seq<byte>, name: seq<byte>, cap: nat)
    requires front != [] && AMP !in front && rest != []
    requires !VarAt(front + [AMP] + rest, name, 0)
    ensures GetVar(front + [AMP] + rest, name, cap) == GetVar(rest, name, cap)
  {
    hide Decode, ValueOf, VarAt;
    var q := front + [AMP] + rest;
    SkipFirst(q, name);
    NotBeforeAmp(q, name, 1, |front| + 1);
    FindBehind(front + [AMP], rest, name, 0);
    var r := FindVar(rest, name, 0);
    if r.Some? {
      FoundInside(rest, name, r.value);
      assert q[|front| + 1 + r.value + |name| + 1..] == rest[r.value + |name| + 1..];
    }
  }

  lemma FoundInside(q: seq<byte>, name: seq<byte>, p: nat)
    requires VarAt(q, name, p)
    ensures p + |name| < |q|
  {
  }

  // ------------------------------------------------------------------ play URLs

  const URL_NAME: seq<byte> := [117, 114, 108]
  const PLAY_STYLE := Style([46, 95, 45, 36, 44, 59, 126, 40, 41], false, false)   // ._-$,;~()

  /** The query of a play URL as `ms_generate_url` builds it. */
  function PlayQuery(url: seq<byte>): seq<byte> {
    URL_NAME + [EQUALS] + Encode(url, PLAY_STYLE)
  }

  /** The query for the URL `a:/`. */
  lemma PlayExample()
    ensures PlayQuery([97, 58, 47]) == [117, 114, 108, 61, 97, 37, 51, 97, 37, 50, 102]
  {
    ThreeEncoded([97, 58, 47], PLAY_STYLE);
  }

  /** The text behind the first question mark. */
  function QueryOf(s: seq<byte>): seq<byte> {
    if s == [] then [] else if s[0] == QUESTION then s[1..] else QueryOf(s[1..])
  }

  /** `ms_generate_url`: `front` is the text up to the path; `snprintf` keeps at most `outLen - 2` bytes. */
  function Generate(front: seq<byte>, url: seq<byte>, outLen: nat): seq<byte>
    requires outLen >= 2
  {
    var all := front + [QUESTION] + PlayQuery(url);
    if |all| <= outLen - 2 then all else all[..outLen - 2]
  }

  lemma {:induction false} ValueOfAll(s: seq<byte>)
    requires AMP !in s
    ensures ValueOf(s) == s
  {
    if s != [] {
      ValueOfAll(s[1..]);
      assert [s[0]] + s[1..] == s;
    }
  }

  lemma {:induction false} QueryBehind(front: seq<byte>, query: seq<byte>)
    requires QUESTION !in front
    ensures QueryOf(front + [QUESTION] + query) == query && QueryOf(front) == []
  {
    var all := front + [QUESTION] + query;
    if front == [] {
      assert all[1..] == query;
    } else {
      QueryBehind(front[1..], query);
      assert all[1..] == front[1..] + [QUESTION] + query;
    }
  }

  /** Looking up the play variable in the first bytes of a play query. */
  lemma CutQuery(url: seq<byte>, cut: nat, cap: nat)
    requires cut <= |PlayQuery(url)|
    ensures var query := PlayQuery(url);
            GetVar(query[..cut], URL_NAME, cap) == Value(url) <==> cut == |query| && |url| < cap
  {
    hide Encode, Decode, ValueOf, FindVar;
    var coded := Encode(url, PLAY_STYLE);
    var query := PlayQuery(url)[..cut];
    if cut >= 4 {
      var value := coded[..cut - 4];
      assert query == URL_NAME + [EQUALS] + value;
      FoundFirst(value);
      NoAmp(url, PLAY_STYLE);
      ValueOfAll(value);
      if cut - 4 < |coded| {
        CutLost(url, PLAY_STYLE, cut - 4);
      } else {
        DecodeEncode(url, PLAY_STYLE);
        assert value == coded;
      }
    } else {
      TooShort(query);
    }
  }

  lemma TooShort(q: seq<byte>)
    requires |q| <= 3
    ensures FindVar(q, URL_NAME, 0) == None
  {
  }

  lemma FoundFirst(value: seq<byte>)
    ensures var q := URL_NAME + [EQUALS] + value; FindVar(q, URL_NAME, 0) == Some(0) && q[4..] == value
  {
    var q := URL_NAME + [EQUALS] + value;
    assert SameName(URL_NAME, q, 0);
    assert VarAt(q, URL_NAME, 0);
  }

  /** A play URL leads back to the exact URL it was made for if and only if neither the buffer it was
      printed to nor the one the variable is read into was too short. */
  lemma PlayUrlIff(front: seq<byte>, url: seq<byte>, outLen: nat, cap: nat)
    requires QUESTION !in front && outLen >= 2
    ensures GetVar(QueryOf(Generate(front, url, outLen)), URL_NAME, cap) == Value(url)
       <==> |url| < cap && |front| + 1 + |PlayQuery(url)| <= outLen - 2
  {
    hide GetVar, PlayQuery;
    var query := PlayQuery(url);
    var all, room := front + [QUESTION] + query, outLen - 2;
    if |all| <= room {
      QueryBehind(front, query);
      CutQuery(url, |query|, cap);
      assert query[..|query|] == query;
    } else if room <= |front| {
      assert all[..room] == front[..room];
      QueryBehind(front[..room], []);
      EmptyQuery(cap);
    } else {
      var cut := room - |front| - 1;
      assert all[..room] == front + [QUESTION] + query[..cut];
      QueryBehind(front, query[..cut]);
      CutQuery(url, cut, cap);
    }
  }

  lemma EmptyQuery(cap: nat)
    ensures GetVar([], URL_NAME, cap) == Code(NO_SOURCE)
  {
  }

  // ------------------------------------------------------------------ the loops

  /** The loop of `mg_url_encode_opt`. */
  method UrlEncode(src: seq<byte>, style: Style) returns (mb: M.Mbuf)
    ensures fresh(mb) && fresh(mb.buf) && mb.Valid() && mb.Contents() == Encode(src, style)
  {
    hide Encode, EncodeChar, M.Mbuf.Contents;
    mb := new M.Mbuf(|src|);
    EncodeNothing(src, style);
    for i := 0 to |src|
      invariant fresh(mb) && fresh(mb.buf) && mb.Valid() && mb.Contents() == Encode(src[..i], style)
    {
      PutChar(mb, src[i], style);
      EncodeSnoc(src[..i], src[i], style);
      assert src[..i] + [src[i]] == src[..i + 1];
    }
    assert src[..|src|] == src;
  }

  method PutChar(mb: M.Mbuf, c: byte, style: Style)
    requires mb.Valid()
    modifies mb, mb.buf
    ensures mb.Valid() && mb.Contents() == old(mb.Contents()) + EncodeChar(c, style)
    ensures mb.buf == old(mb.buf) || fresh(mb.buf)
  {
    hide M.Mbuf.Contents, Hex;
    if IsAlnum(c) || c in style.safe {
      mb.Append([c]);
    } else if c == SPACE && style.plus {
      mb.Append([PLUS]);
    } else {
      ghost var before := mb.Contents();
      var high, low := Hex(c / 16, style.upper), Hex(c % 16, style.upper);
      mb.Append([PERCENT]);
      mb.Append([high]);
      mb.Append([low]);
      assert before + [PERCENT] + [high] + [low] == before + [PERCENT, high, low];
    }
  }

  lemma EncodeNothing(src: seq<byte>, style: Style)
    ensures Encode(src[..0], style) == []
  {
  }

  lemma {:induction false} EncodeSnoc(s: seq<byte>, c: byte, style: Style)
    ensures Encode(s + [c], style) == Encode(s, style) + EncodeChar(c, style)
  {
    hide EncodeChar;
    if s == [] {
      assert s + [c] == [c] && [c][1..] == [];
      assert EncodeChar(c, style) + [] == [] + EncodeChar(c, style);
    } else {
      EncodeSnoc(s[1..], c, style);
      assert (s + [c])[1..] == s[1..] + [c];
    }
  }

  /** `mg_url_decode`; a string that does not fit is reported like a bad escape. */
  method UrlDecode(src: seq<byte>, dst: array<byte>, form: bool) returns (n: int)
    requires dst.Length > 0
    modifies dst
    ensures var r := Decode(src, form);
            if r.Some? && |r.value| < dst.Length
            then n == |r.value| && dst[..n] == r.value && dst[n] == 0
            else n == -1
  {
    hide Decode;
    var i, j := 0, 0;
    ghost var out: seq<byte> := [];
    assert src[0..] == src;
    BehindNothing(Decode(src, form));
    while i < |src| && j < dst.Length - 1
      invariant 0 <= i <= |src| && 0 <= j < dst.Length && dst[..j] == out
      invariant Decode(src, form) == Behind(out, Decode(src[i..], form))
    {
      DecodeHere(src, i, form, out);
      if src[i] == PERCENT {
        if i < |src| - 2 && C.IsHex(src[i + 1]) && C.IsHex(src[i + 2]) {
          dst[j] := C.HexDigit(src[i + 1]) * 16 + C.HexDigit(src[i + 2]);
          i := i + 2;
        } else {
          return -1;
        }
      } else if form && src[i] == PLUS {
        dst[j] := SPACE;
      } else {
        dst[j] := src[i];
      }
      out := out + [dst[j]];
      i := i + 1;
      j := j + 1;
      assert dst[..j] == out;
    }
    DecodeLength(src[i..], form);
    dst[j] := 0;
    assert dst[..j] == out;
    n := if i >= |src| then j else -1;
  }

  /** The result with what has been decoded already in front. */
  ghost function Behind(out: seq<byte>, r: Option<seq<byte>>): Option<seq<byte>> {
    if r.None? then None else Some(out + r.value)
  }

  lemma BehindNothing(r: Option<seq<byte>>)
    ensures Behind([], r) == r
  {
    if r.Some? {
      assert [] + r.value == r.value;
    }
  }

  lemma DecodeLength(s: seq<byte>, form: bool)
    ensures s != [] && Decode(s, form).Some? ==> Decode(s, form).value != []
    ensures s == [] ==> Decode(s, form) == Some([])
  {
  }

  lemma DecodeHere(src: seq<byte>, i: nat, form: bool, out: seq<byte>)
    requires i < |src|
    ensures var escape := i < |src| - 2 && C.IsHex(src[i + 1]) && C.IsHex(src[i + 2]);
            var r := Behind(out, Decode(src[i..], form));
            if src[i] == PERCENT then
              if escape then r == Behind(out + [C.HexDigit(src[i + 1]) * 16 + C.HexDigit(src[i + 2])],
                                              Decode(src[i + 3..], form))
              else r.None?
            else r == Behind(out + [if form && src[i] == PLUS then SPACE else src[i]], Decode(src[i + 1..], form))
  {
    var here := src[i..];
    assert here[1..] == src[i + 1..];
    if |here| > 2 {
      assert here[3..] == src[i + 3..];
    }
    forall c: byte, r: Option<seq<byte>>
      ensures Behind(out, Prepend(c, r)) == Behind(out + [c], r)
    {
      if r.Some? {
        assert out + ([c] + r.value) == out + [c] + r.value;
      }
    }
  }

  /** `mg_get_http_var`: the return value, and the text it leaves in `dst`. */
  method GetHttpVar(q: seq<byte>, name: seq<byte>, dst: array<byte>) returns (len: int)
    requires dst.Length > 0
    modifies dst
    ensures match GetVar(q, name, dst.Length)
            case Value(text) => len == |text| < dst.Length && dst[..len] == text && dst[len] == 0
            case Code(n) => len == n
  {
    hide Decode, FindVar, ValueOf;
    if q == [] {
      dst[0] := 0;
      return NO_SOURCE;
    }
    len := NO_VARIABLE;
    dst[0] := 0;
    var p := 0;
    while p + |name| < |q|
      invariant 0 <= p && FindVar(q, name, 0) == FindVar(q, name, p)
    {
      FindHere(q, name, p);
      if (p == 0 || q[p - 1] == AMP) && q[p + |name|] == EQUALS && SameName(name, q, p) {
        var value := CutValue(q, p + |name| + 1);
        len := UrlDecode(value, dst, true);
        if len == -1 {
          len := NOT_DECODED;
        }
        return;
      }
      p := p + 1;
    }
    FindHere(q, name, p);
  }

  lemma FindHere(q: seq<byte>, name: seq<byte>, p: nat)
    ensures FindVar(q, name, p) ==
            if p + |name| >= |q| then None else if VarAt(q, name, p) then Some(p) else FindVar(q, name, p + 1)
  {
  }

  /** `memchr` for the end of the value. */
  method CutValue(q: seq<byte>, from: nat) returns (value: seq<byte>)
    requires from <= |q|
    ensures value == ValueOf(q[from..])
  {
    hide ValueOf;
    var s := from;
    assert q[from..from] + ValueOf(q[from..]) == ValueOf(q[from..]);
    while s < |q| && q[s] != AMP
      invariant from <= s <= |q| && ValueOf(q[from..]) == q[from..s] + ValueOf(q[s..])
    {
      ValueStep(q, from, s);
      s := s + 1;
    }
    ValueEnd(q[s..], q[from..s]);
    value := q[from..s];
  }

  lemma ValueStep(q: seq<byte>, from: nat, s: nat)
    requires from <= s < |q| && q[s] != AMP
    ensures q[from..s] + ValueOf(q[s..]) == q[from..s + 1] + ValueOf(q[s + 1..])
  {
    assert q[s..][1..] == q[s + 1..];
    assert q[from..s] + [q[s]] == q[from..s + 1];
    assert q[from..s] + ([q[s]] + ValueOf(q[s + 1..])) == q[from..s] + [q[s]] + ValueOf(q[s + 1..]);
  }

  lemma ValueEnd(s: seq<byte>, before: seq<byte>)
    requires s == [] || s[0] == AMP
    ensures before + ValueOf(s) == before
  {
  }
}
