/** The scan of a message's head (`rena/src/http.c`), as a function of the buffer. */
module HttpHead {
  import opened Bytes
  import opened Wrappers

  const TAB: byte := 9
  const LF: byte := 10
  const CR: byte := 13
  const CRLF: Text := [CR, LF]
  const VERSION: Text := [72, 84, 84, 80, 47, 49]  // HTTP/1

  predicate IsDelim(b: byte) {
    b == CR || b == LF
  }

  predicate IsBlank(b: byte) {
    b == TAB || b == SPACE
  }

  lemma BytesSpelled(b: byte)
    ensures IsDelim(b) <==> b in Ascii("\r\n")
    ensures IsBlank(b) <==> b in Ascii(" \t")
    ensures CRLF == Ascii("\r\n") && VERSION == Ascii("HTTP/1")
  {
    assert Ascii(" \t") == [32, 9] && Ascii("\r\n") == [13, 10];
  }

  predicate NoDelims(t: Text) {
    forall i :: 0 <= i < |t| ==> !IsDelim(t[i])
  }

  datatype Mode =
    | FirstLineFirstDelim | FirstLineSecondDelim
    | HeaderFirstDelim | HeaderSecondDelim | HeaderThirdDelim | HeaderDone

  datatype Slice = Slice(at: nat, len: nat)

  /** The scan's variables: where the current line or field begins, the state, the fields
  recorded, and where the payload begins once that is known. */
  datatype Scanner = Scanner(buffer: Text, begin: nat, mode: Mode, table: seq<Slice>, payload: Option<nat>) {
    predicate Within(n: nat, p: nat) {
      && begin <= p <= n < |buffer|
      && (mode.HeaderSecondDelim? ==> begin < p)
    }
  }

  /** The first delimiter in `b[p..n]`, or `n`. */
  function NextDelim(b: Text, p: nat, n: nat): (q: nat)
    requires p <= n <= |b|
    ensures p <= q <= n && NoDelims(b[p..q])
    ensures q < n ==> IsDelim(b[q])
    decreases n - p
  {
    if p < n && !IsDelim(b[p]) then NextDelim(b, p + 1, n) else p
  }

  lemma NextDelimIs(b: Text, p: nat, n: nat, q: nat)
    requires p <= q < n <= |b| && NoDelims(b[p..q]) && IsDelim(b[q])
    ensures NextDelim(b, p, n) == q
  {
  }

  /** Version 1.x becomes 1.0 in the first line, which ends two bytes before `begin`. */
  function Downgraded(b: Text, begin: nat): (d: Text)
    requires begin <= |b|
    ensures |d| == |b|
  {
    if 10 <= begin && b[begin - 10..begin - 4] == VERSION then b[begin - 5 := 49][begin - 3 := 48] else b
  }

  /** What the delimiter just before `next` does. In the second line state the scan looks
  at the byte behind it, which may be one past the used ones. */
  function OnDelim(s: Scanner, next: nat): (t: Scanner)
    requires s.begin < next < |s.buffer| && (s.mode.HeaderSecondDelim? ==> s.begin + 2 <= next)
    ensures |t.buffer| == |s.buffer| && s.table <= t.table && t.begin <= next
    ensures t.mode.HeaderSecondDelim? ==> t.begin < next
  {
    match s.mode
    case FirstLineFirstDelim => s.(mode := FirstLineSecondDelim)
    case FirstLineSecondDelim => s.(mode := HeaderFirstDelim, begin := next, buffer := Downgraded(s.buffer, next))
    case HeaderFirstDelim => s.(mode := HeaderSecondDelim)
    case HeaderSecondDelim =>
      var after := s.(mode := if IsDelim(s.buffer[next]) then HeaderThirdDelim else HeaderFirstDelim);
      if IsBlank(s.buffer[next]) then after
      else after.(begin := next, table := s.table + [Slice(s.begin, next - s.begin - 2)])
    case HeaderThirdDelim => s.(mode := HeaderDone)
    case HeaderDone => s.(payload := Some(next))
  }

  /** The scan of the `n` used bytes from `p` on. */
  function Parse(s: Scanner, n: nat, p: nat): (t: Scanner)
    requires s.Within(n, p)
    ensures |t.buffer| == |s.buffer| && s.table <= t.table
    decreases n - p
  {
    var q := NextDelim(s.buffer, p, n);
    if s.payload.Some? || q == n then s else Parse(OnDelim(s, q + 1), n, q + 1)
  }

  function Start(b: Text): Scanner {
    Scanner(b, 0, FirstLineFirstDelim, [], None)
  }

  function Scan(b: Text, n: nat): (t: Scanner)
    requires n < |b|
    ensures |t.buffer| == |b|
  {
    Parse(Start(b), n, 0)
  }

  /** What is recorded lies within the used bytes, and whoever finds the end of the head
  has recorded a field. */
  predicate Recorded(s: Scanner, n: nat) {
    && (forall i :: 0 <= i < |s.table| ==> s.table[i].at + s.table[i].len + 2 <= n)
    && (s.payload.Some? ==> s.payload.value <= n)
    && (s.payload.Some? || s.mode.HeaderThirdDelim? || s.mode.HeaderDone? ==> s.table != [])
  }

  lemma OnDelimRecords(s: Scanner, n: nat, next: nat)
    requires s.begin < next <= n < |s.buffer| && (s.mode.HeaderSecondDelim? ==> s.begin + 2 <= next)
    requires Recorded(s, n)
    ensures Recorded(OnDelim(s, next), n)
  {
    hide Downgraded;
  }

  lemma {:induction false} ParseRecords(s: Scanner, n: nat, p: nat)
    requires s.Within(n, p) && Recorded(s, n)
    ensures Recorded(Parse(s, n, p), n)
    decreases n - p
  {
    hide OnDelim, NextDelim, Recorded;
    var q := NextDelim(s.buffer, p, n);
    if s.payload.None? && q < n {
      OnDelimRecords(s, n, q + 1);
      ParseRecords(OnDelim(s, q + 1), n, q + 1);
    }
  }

  // Printed heads (section 3 of RFC 7230, with the folding of its section 3.2.4)

  /** A field: its line and the lines it is folded onto. */
  type Field = seq<Text>

  datatype Head = Head(first: Text, fields: seq<Field>, body: Text) {
    predicate WellFormed() {
      NoDelims(first) && forall i :: 0 <= i < |fields| ==> IsField(fields[i])
    }
  }

  predicate IsField(f: Field) {
    && f != [] && f[0] != [] && !IsBlank(f[0][0])
    && IsLines(f)
  }

  /** Lines, each after the first one beginning with a blank. */
  predicate IsLines(f: Field) {
    && (forall i :: 0 <= i < |f| ==> NoDelims(f[i]))
    && (forall i :: 0 < i < |f| ==> f[i] != [] && IsBlank(f[i][0]))
  }

  function PrintField(f: Field): (t: Text)
    ensures f != [] ==> 2 <= |t| && t[|t| - 2..] == CRLF
  {
    if f == [] then [] else f[0] + CRLF + PrintField(f[1..])
  }

  function PrintFields(fs: seq<Field>): Text {
    if fs == [] then [] else PrintField(fs[0]) + PrintFields(fs[1..])
  }

  function Print(h: Head): Text {
    h.first + CRLF + PrintFields(h.fields) + CRLF + h.body
  }

  /** Where the `i`th field begins; where the blank line does, for `i` the number of fields. */
  function FieldAt(h: Head, i: nat): nat
    requires i <= |h.fields|
  {
    |h.first| + 2 + |PrintFields(h.fields[..i])|
  }

  function BodyAt(h: Head): nat {
    FieldAt(h, |h.fields|) + 2
  }

  function FieldText(f: Field): Text
    requires f != []
  {
    PrintField(f)[..|PrintField(f)| - 2]
  }

  /** The slices of the fields in the printed head. */
  function Slices(h: Head): (s: seq<Slice>)
    requires h.WellFormed()
    ensures |s| == |h.fields|
    ensures forall i :: 0 <= i < |s| ==> s[i] == Slice(FieldAt(h, i), |FieldText(h.fields[i])|)
  {
    seq(|h.fields|, i requires 0 <= i < |h.fields| => Slice(FieldAt(h, i), |FieldText(h.fields[i])|))
  }

  function DowngradedLine(first: Text): (d: Text)
    ensures |d| == |first|
  {
    if 8 <= |first| && first[|first| - 8..|first| - 2] == VERSION then
      first[|first| - 3 := 49][|first| - 1 := 48]
    else first
  }

  function DowngradedHead(h: Head): Head {
    h.(first := DowngradedLine(h.first))
  }

  /** `t` stands at `p`. */
  predicate At(b: Text, p: nat, t: Text) {
    p + |t| <= |b| && b[p..p + |t|] == t
  }

  lemma AtSplit(b: Text, p: nat, s: Text, t: Text)
    ensures At(b, p, s + t) <==> At(b, p, s) && At(b, p + |s|, t)
  {
    if At(b, p, s + t) {
      assert b[p..p + |s|] == (s + t)[..|s|];
      assert b[p + |s|..p + |s| + |t|] == (s + t)[|s|..];
    }
  }

  lemma AtCRLF(b: Text, p: nat)
    requires At(b, p, CRLF)
    ensures b[p] == CR && b[p + 1] == LF
  {
    assert b[p..p + 2][0] == CR && b[p..p + 2][1] == LF;
  }

  lemma LineEnds(b: Text, n: nat, p: nat, line: Text)
    requires p + |line| + 2 <= n <= |b| && NoDelims(line) && At(b, p, line + CRLF)
    ensures var q := p + |line|; NextDelim(b, p, n) == q && NextDelim(b, q + 1, n) == q + 1
  {
    AtSplit(b, p, line, CRLF);
    var q := p + |line|;
    AtCRLF(b, q);
    NextDelimIs(b, p, n, q);
    NextDelimIs(b, q + 1, n, q + 1);
  }

  /** A line costs its two delimiters. */
  lemma ParseLine(s: Scanner, n: nat, p: nat, line: Text)
    requires s.Within(n, p) && s.payload.None? && !s.mode.FirstLineSecondDelim?
    requires p + |line| + 2 <= n && NoDelims(line) && At(s.buffer, p, line + CRLF)
    ensures OnDelim(s, p + |line| + 1).payload.None? ==>
      Parse(s, n, p) == Parse(OnDelim(OnDelim(s, p + |line| + 1), p + |line| + 2), n, p + |line| + 2)
  {
    hide NextDelim, At, Downgraded, Parse;
    var q := p + |line|;
    LineEnds(s.buffer, n, p, line);
    ParseStep(s, n, p, q);
    if OnDelim(s, q + 1).payload.None? {
      ParseStep(OnDelim(s, q + 1), n, q + 1, q + 1);
    }
  }

  lemma ParseStep(s: Scanner, n: nat, p: nat, q: nat)
    requires s.Within(n, p) && s.payload.None? && q == NextDelim(s.buffer, p, n) < n
    ensures Parse(s, n, p) == Parse(OnDelim(s, q + 1), n, q + 1)
  {
  }

  /** A header line of which the next byte decides whether it ends its field, or the head. */
  function AfterLine(s: Scanner, e: nat): Scanner
    requires s.begin + 2 <= e < |s.buffer|
  {
    s.(mode := if IsDelim(s.buffer[e]) then HeaderThirdDelim else HeaderFirstDelim,
       begin := if IsBlank(s.buffer[e]) then s.begin else e,
       table := if IsBlank(s.buffer[e]) then s.table else s.table + [Slice(s.begin, e - s.begin - 2)])
  }

  lemma ParseHeaderLine(s: Scanner, n: nat, p: nat, line: Text)
    requires s.Within(n, p) && s.payload.None? && s.mode.HeaderFirstDelim?
    requires p + |line| + 2 <= n && NoDelims(line) && At(s.buffer, p, line + CRLF)
    ensures var e := p + |line| + 2; Parse(s, n, p) == Parse(AfterLine(s, e), n, e)
  {
    hide Parse, NextDelim, At;
    ParseLine(s, n, p, line);
    var e := p + |line| + 2;
    assert OnDelim(OnDelim(s, e - 1), e) == AfterLine(s, e);
  }

  /** One field, folded or not: one slice. */
  lemma {:induction false} ParseField(s: Scanner, n: nat, p: nat, f: Field)
    requires s.Within(n, p) && s.payload.None? && s.mode.HeaderFirstDelim?
    requires f != [] && IsLines(f) && At(s.buffer, p, PrintField(f)) && p + |PrintField(f)| <= n
    requires !IsBlank(s.buffer[p + |PrintField(f)|])
    ensures var e := p + |PrintField(f)|; Parse(s, n, p) == Parse(AfterLine(s, e), n, e)
    decreases |f|
  {
    hide Parse, At, IsBlank, IsDelim;
    var line, b := f[0], s.buffer;
    AtSplit(b, p, line + CRLF, PrintField(f[1..]));
    ParseHeaderLine(s, n, p, line);
    if |f| > 1 {
      var e := p + |line| + 2;
      FoldStands(b, e, f);
      var next := AfterLine(s, e);
      assert next == s;
      ParseField(s, n, e, f[1..]);
    }
  }

  lemma FoldStands(b: Text, e: nat, f: Field)
    requires |f| > 1 && IsLines(f) && At(b, e, PrintField(f[1..]))
    ensures e < |b| && IsBlank(b[e]) && !IsDelim(b[e]) && IsLines(f[1..])
  {
    var rest := PrintField(f[1..]);
    assert f[1..][0] == f[1];
    assert rest[0] == f[1][0];
    assert b[e..e + |rest|][0] == rest[0];
  }

  /** The scan when it has passed the first `i` fields. */
  function Passed(b: Text, h: Head, i: nat): Scanner
    requires h.WellFormed() && i <= |h.fields|
  {
    Scanner(b, FieldAt(h, i), if i == |h.fields| then HeaderThirdDelim else HeaderFirstDelim, Slices(h)[..i], None)
  }

  /** The fields of a head from the `i`th on, up to the blank line. */
  lemma {:induction false} ParseFields(b: Text, n: nat, h: Head, i: nat)
    requires h.WellFormed() && i <= |h.fields| && At(b, 0, Print(h)) && |Print(h)| == n < |b|
    ensures FieldAt(h, i) <= n && FieldAt(h, |h.fields|) <= n
    ensures Parse(Passed(b, h, i), n, FieldAt(h, i)) ==
            Parse(Passed(b, h, |h.fields|), n, FieldAt(h, |h.fields|))
    decreases |h.fields| - i
  {
    hide Parse, At, Print, PrintField, PrintFields, Passed, AfterLine, NextDelim;
    BlankLineStands(b, h);
    if i < |h.fields| {
      PassField(b, h, i);
      ParseField(Passed(b, h, i), n, FieldAt(h, i), h.fields[i]);
      ParseFields(b, n, h, i + 1);
    } else {
      PassedAll(b, h);
    }
  }

  lemma PassedAll(b: Text, h: Head)
    requires h.WellFormed()
    ensures Passed(b, h, |h.fields|).begin == FieldAt(h, |h.fields|)
    ensures Passed(b, h, |h.fields|).buffer == b && Passed(b, h, |h.fields|).mode == HeaderThirdDelim
  {
  }

  lemma PassField(b: Text, h: Head, i: nat)
    requires h.WellFormed() && i < |h.fields| && At(b, 0, Print(h)) && |Print(h)| < |b|
    ensures var s, e := Passed(b, h, i), FieldAt(h, i + 1);
      && s.begin == FieldAt(h, i) && s.buffer == b && s.mode == HeaderFirstDelim && s.payload == None
      && e == FieldAt(h, i) + |PrintField(h.fields[i])| <= |Print(h)| && At(b, FieldAt(h, i), PrintField(h.fields[i]))
      && IsField(h.fields[i]) && !IsBlank(b[e])
      && s.begin + 2 <= e && AfterLine(s, e) == Passed(b, h, i + 1)
  {
    hide At, Print, PrintField, PrintFields, Slices, FieldAt;
    FieldStands(b, h, i);
    AfterField(b, h, i + 1);
    assert IsField(h.fields[i]);
    SlicesPush(h, i);
  }

  lemma SlicesPush(h: Head, i: nat)
    requires h.WellFormed() && i < |h.fields|
    ensures FieldAt(h, i) + 2 <= FieldAt(h, i + 1)
    ensures Slices(h)[..i + 1] == Slices(h)[..i] + [Slice(FieldAt(h, i), FieldAt(h, i + 1) - FieldAt(h, i) - 2)]
  {
    hide PrintField, PrintFields, FieldAt;
    PrintAround(h, i);
    assert IsField(h.fields[i]);
    assert Slices(h)[..i + 1] == Slices(h)[..i] + [Slices(h)[i]];
  }

  lemma {:induction false} PrintFieldsAppend(fs: seq<Field>, gs: seq<Field>)
    ensures PrintFields(fs + gs) == PrintFields(fs) + PrintFields(gs)
  {
    if fs == [] {
      assert fs + gs == gs;
    } else {
      assert (fs + gs)[1..] == fs[1..] + gs;
      PrintFieldsAppend(fs[1..], gs);
    }
  }

  lemma FieldAtGrows(h: Head, i: nat)
    requires i <= |h.fields|
    ensures FieldAt(h, i) <= FieldAt(h, |h.fields|)
  {
    assert h.fields[..|h.fields|] == h.fields[..i] + h.fields[i..];
    PrintFieldsAppend(h.fields[..i], h.fields[i..]);
  }

  lemma Regroup(a: Text, b: Text, x: Text, f: Text, y: Text, c: Text, d: Text)
    ensures a + b + (x + f + y) + c + d == (a + b + x) + f + (y + c + d)
  {
  }

  /** The print of a head around its `i`th field. */
  lemma PrintAround(h: Head, i: nat)
    requires i < |h.fields|
    ensures FieldAt(h, i + 1) == FieldAt(h, i) + |PrintField(h.fields[i])|
    ensures Print(h) == (h.first + CRLF + PrintFields(h.fields[..i])) + PrintField(h.fields[i])
                        + (PrintFields(h.fields[i + 1..]) + CRLF + h.body)
  {
    hide PrintField, PrintFields;
    var before, f, after := h.fields[..i], h.fields[i], h.fields[i + 1..];
    PrintFieldsAppend(before, [f]);
    assert h.fields[..i + 1] == before + [f];
    PrintFieldsAppend(before + [f], after);
    assert h.fields == before + [f] + after;
    PrintOne(f);
    Regroup(h.first, CRLF, PrintFields(before), PrintField(f), PrintFields(after), CRLF, h.body);
  }

  lemma PrintOne(f: Field)
    ensures PrintFields([f]) == PrintField(f)
  {
    assert [f][1..] == [];
  }

  /** Each field stands in the print where `FieldAt` says. */
  lemma FieldStands(b: Text, h: Head, i: nat)
    requires i < |h.fields| && At(b, 0, Print(h))
    ensures At(b, FieldAt(h, i), PrintField(h.fields[i]))
    ensures FieldAt(h, i + 1) == FieldAt(h, i) + |PrintField(h.fields[i])| <= |Print(h)|
  {
    PrintAround(h, i);
    var before, f := h.first + CRLF + PrintFields(h.fields[..i]), PrintField(h.fields[i]);
    var after := PrintFields(h.fields[i + 1..]) + CRLF + h.body;
    AtSplit(b, 0, before + f, after);
    AtSplit(b, 0, before, f);
  }

  /** The blank line and the body stand behind the last field. */
  lemma BlankLineStands(b: Text, h: Head)
    requires At(b, 0, Print(h))
    ensures At(b, FieldAt(h, |h.fields|), CRLF) && |Print(h)| == BodyAt(h) + |h.body|
    ensures At(b, BodyAt(h), h.body)
  {
    var before := h.first + CRLF + PrintFields(h.fields);
    assert h.fields[..|h.fields|] == h.fields;
    AtSplit(b, 0, before + CRLF, h.body);
    AtSplit(b, 0, before, CRLF);
  }

  /** Behind a field there is another one, or the blank line: no fold. */
  lemma AfterField(b: Text, h: Head, i: nat)
    requires h.WellFormed() && i <= |h.fields| && At(b, 0, Print(h))
    ensures FieldAt(h, i) < |Print(h)| && !IsBlank(b[FieldAt(h, i)])
    ensures IsDelim(b[FieldAt(h, i)]) <==> i == |h.fields|
  {
    BlankLineStands(b, h);
    if i == |h.fields| {
      AtCRLF(b, FieldAt(h, i));
    } else {
      FieldStands(b, h, i);
      var f := h.fields[i];
      assert IsField(f);
      assert PrintField(f)[0] == f[0][0];
      assert b[FieldAt(h, i)] == PrintField(f)[0];
    }
  }

  lemma DowngradeLine(b: Text, first: Text)
    requires At(b, 0, first) && |first| + 2 <= |b|
    ensures var d := Downgraded(b, |first| + 2);
      At(d, 0, DowngradedLine(first)) && d[|first|..] == b[|first|..]
  {
    var m := |first|;
    assert b[0..m] == b[..m];
    if 8 <= m {
      assert b[m - 8..m - 2] == b[..m][m - 8..m - 2];
    }
  }

  lemma AtBehind(b: Text, d: Text, p: nat, t: Text)
    requires p <= |b| == |d| && b[p..] == d[p..] && At(b, p, t)
    ensures At(d, p, t)
  {
    assert d[p..p + |t|] == d[p..][..|t|];
    assert b[p..p + |t|] == b[p..][..|t|];
  }

  /** The downgrade changes the first line and nothing else. */
  lemma DowngradeStands(b: Text, h: Head)
    requires At(b, 0, Print(h))
    ensures var d := Downgraded(b, |h.first| + 2);
      At(d, 0, Print(DowngradedHead(h))) && d[|h.first|..] == b[|h.first|..]
  {
    hide At, Downgraded, DowngradedLine, PrintFields;
    var rest, first' := CRLF + PrintFields(h.fields) + CRLF + h.body, DowngradedLine(h.first);
    assert Print(h) == h.first + rest && Print(DowngradedHead(h)) == first' + rest;
    AtSplit(b, 0, h.first, rest);
    AtFits(b, 0, Print(h));
    DowngradeLine(b, h.first);
    var d := Downgraded(b, |h.first| + 2);
    AtBehind(b, d, |h.first|, rest);
    AtSplit(d, 0, first', rest);
  }

  lemma AtFits(b: Text, p: nat, t: Text)
    requires At(b, p, t)
    ensures p + |t| <= |b|
  {
  }

  lemma ScanFirstLine(b: Text, n: nat, h: Head)
    requires NoDelims(h.first) && At(b, 0, Print(h)) && |Print(h)| == n < |b|
    ensures var e := |h.first| + 2;
      e <= n && Scan(b, n) == Parse(Scanner(Downgraded(b, e), e, HeaderFirstDelim, [], None), n, e)
  {
    hide Parse;
    var rest := PrintFields(h.fields) + CRLF + h.body;
    assert Print(h) == h.first + CRLF + rest;
    AtSplit(b, 0, h.first + CRLF, rest);
    ParseLine(Start(b), n, 0, h.first);
  }

  lemma ScanBlankLine(b: Text, n: nat, h: Head)
    requires h.WellFormed() && At(b, 0, Print(h)) && |Print(h)| == n < |b|
    ensures FieldAt(h, |h.fields|) <= n
    ensures var t := Parse(Passed(b, h, |h.fields|), n, FieldAt(h, |h.fields|));
      t.buffer == b && t.table == Slices(h) && t.payload == Some(BodyAt(h))
  {
    hide NextDelim, Parse, Print, PrintFields, Slices;
    BlankLineStands(b, h);
    var p, s := FieldAt(h, |h.fields|), Passed(b, h, |h.fields|);
    assert [] + CRLF == CRLF;
    ParseLine(s, n, p, []);
    ParseEnd(OnDelim(OnDelim(s, p + 1), p + 2), n, p + 2);
  }

  lemma ParseEnd(s: Scanner, n: nat, p: nat)
    requires s.Within(n, p) && s.payload.Some?
    ensures Parse(s, n, p) == s
  {
  }

  /** Scanning a printed head reports exactly its fields, in order, and where its body
  begins, and leaves the print of the head with the version downgraded. */
  lemma ScanPrinted(b: Text, n: nat, h: Head)
    requires h.WellFormed() && h.fields != [] && At(b, 0, Print(h)) && |Print(h)| == n < |b|
    ensures var t := Scan(b, n);
      && t.table == Slices(h) && t.payload == Some(BodyAt(h))
      && At(t.buffer, 0, Print(DowngradedHead(h))) && t.buffer[|h.first|..] == b[|h.first|..]
  {
    hide Parse, Downgraded, Print;
    var e := |h.first| + 2;
    ScanFirstLine(b, n, h);
    var d, g := Downgraded(b, e), DowngradedHead(h);
    DowngradeStands(b, h);
    DowngradeKeepsShape(h);
    assert Passed(d, g, 0) == Scanner(d, e, HeaderFirstDelim, [], None);
    ParseFields(d, n, g, 0);
    ScanBlankLine(d, n, g);
  }

  lemma DowngradeKeepsShape(h: Head)
    requires h.WellFormed()
    ensures var g := DowngradedHead(h);
      g.WellFormed() && |Print(g)| == |Print(h)| && Slices(g) == Slices(h) && BodyAt(g) == BodyAt(h)
  {
  }

  /** A head without fields is the one exception: the scan does not see where it ends. */
  lemma ScanAgreesIff(b: Text, n: nat, h: Head)
    requires h.WellFormed() && At(b, 0, Print(h)) && |Print(h)| == n < |b|
    ensures (Scan(b, n).table == Slices(h) && Scan(b, n).payload == Some(BodyAt(h))) <==> h.fields != []
  {
    if h.fields != [] {
      ScanPrinted(b, n, h);
    } else {
      ParseRecords(Start(b), n, 0);
    }
  }

  /** The second scan, which saves what the first one counted, reports the same. */
  lemma SecondScanAgrees(b: Text, n: nat, h: Head)
    requires h.WellFormed() && h.fields != [] && At(b, 0, Print(h)) && |Print(h)| == n < |b|
    ensures var t := Scan(b, n); var u := Scan(t.buffer, n);
      u.table == t.table && u.payload == t.payload
  {
    hide Parse, Print, PrintFields, Slices, Scan;
    ScanPrinted(b, n, h);
    DowngradeKeepsShape(h);
    ScanPrinted(Scan(b, n).buffer, n, DowngradedHead(h));
  }

  /** The slice of a field holds the field's text, and a line end follows. */
  lemma SliceHoldsField(b: Text, h: Head, i: nat)
    requires h.WellFormed() && i < |h.fields| && At(b, 0, Print(h))
    ensures var s := Slices(h)[i];
      && At(b, s.at, FieldText(h.fields[i]) + CRLF)
      && FieldAt(h, i + 1) == s.at + s.len + 2 <= BodyAt(h)
  {
    FieldStands(b, h, i);
    BlankLineStands(b, h);
    assert IsField(h.fields[i]);
    FieldAtGrows(h, i + 1);
    var t := PrintField(h.fields[i]);
    assert t == t[..|t| - 2] + t[|t| - 2..];
  }
}
