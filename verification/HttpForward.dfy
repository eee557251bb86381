/** The head that is sent on (`rena/src/http.c`): which fields are taken out for which side, and
what becomes of the first line. */
module HttpForward {
  import opened Bytes
  import opened Wrappers
  import opened Sequences
  import opened HttpBuffer
  import opened HttpHead
  import opened HttpHeaders

  /** What is left of a head when the proxy passes it on. */
  function Forwarded(h: Head, isVictim: bool): Head
    requires h.WellFormed()
  {
    var g := DowngradedHead(h);
    KeepsShape(g, if isVictim then CONTENT_LENGTH else CONNECTION);
    if isVictim then Removed(Removed(g, CONTENT_LENGTH), ACCEPT_RANGES)
    else Removed(Removed(g, CONNECTION), ACCEPT_ENCODING)
  }

  lemma {:induction false} KeepsShape(h: Head, name: Text)
    requires h.WellFormed()
    ensures Removed(h, name).WellFormed()
  {
    HaveLines(h);
    KeepsFields(h.fields, name);
  }

  lemma {:induction false} KeepsFields(fs: seq<Field>, name: Text)
    requires forall i :: 0 <= i < |fs| ==> IsField(fs[i])
    requires forall i :: 0 <= i < |fs| ==> fs[i] != []
    ensures forall i :: 0 <= i < |WithoutNamed(fs, name)| ==> IsField(WithoutNamed(fs, name)[i])
  {
    if fs != [] && !Named(FieldText(fs[0]), name) {
      KeepsFields(fs[1..], name);
    }
  }

  /** The table of a scan, as pointers into the buffer. */
  method SaveHeaders(http: Http, table: seq<Slice>)
    modifies http`headers, http`headersLength
    ensures |http.headers| == |http.headersLength| == |table|
    ensures forall k :: 0 <= k < |table| ==>
      http.headers[k] == Pointer(http, table[k].at) && http.headersLength[k] == table[k].len
  {
    http.headers, http.headersLength := [], [];
    var i := 0;
    while i < |table|
      invariant i <= |table| && |http.headers| == |http.headersLength| == i
      invariant forall k :: 0 <= k < i ==>
        http.headers[k] == Pointer(http, table[k].at) && http.headersLength[k] == table[k].len
    {
      http.headers, http.headersLength :=
        http.headers + [Pointer(http, table[i].at)], http.headersLength + [table[i].len];
      i := i + 1;
    }
  }

  lemma DowngradeTwice(h: Head)
    ensures DowngradedHead(DowngradedHead(h)) == DowngradedHead(h)
  {
    var m := |h.first|;
    if 8 <= m && h.first[m - 8..m - 2] == VERSION {
      assert DowngradedLine(h.first)[m - 3] == h.first[m - 8..m - 2][5];
      assert DowngradedLine(h.first)[m - 8..m - 2] == VERSION;
    }
  }

  lemma StandsInBuffer(http: Http, h: Head)
    requires http.bufferUsed <= http.buffer.Length && http.Contents() == Print(h)
    ensures At(http.buffer[..], 0, Print(h)) && |Print(h)| == http.bufferUsed
  {
    assert http.Contents() == http.buffer[..][0..http.bufferUsed];
  }

  lemma Filled(http: Http, h: Head)
    requires h.WellFormed() && At(http.buffer[..], 0, Print(h)) && |Print(h)| == http.bufferUsed
    requires STRUCT_SIZE <= http.totalBlock && http.buffer.Length == Capacity(http.totalBlock)
    requires http.bufferUsed < http.buffer.Length
    requires |http.headers| == |http.headersLength| == |h.fields|
    requires forall k :: 0 <= k < |h.fields| ==>
      http.headers[k] == Pointer(http, Slices(h)[k].at) && http.headersLength[k] == Slices(h)[k].len
    requires http.payload == Some(Pointer(http, BodyAt(h)))
    ensures Holds(http, h)
  {
    hide Print, FieldAt, FieldText;
    assert http.Contents() == http.buffer[..][0..http.bufferUsed];
    FieldsInPrint(h);
  }

  /** From the bytes of a printed head to the structure that is sent on: the first scan
  counts the fields, the second one saves as many, and two names are taken out. */
  method EvaluateHeaders(http: Http, isVictim: bool, ghost h: Head)
    requires http.Valid() && Spare(http.FillOf()) && http.headers == [] && http.payload == None
    requires h.WellFormed() && h.fields != [] && http.Contents() == Print(h)
    modifies http, http.buffer
    ensures Holds(http, Forwarded(h, isVictim)) && PassedOn(h, Forwarded(h, isVictim), isVictim)
  {
    hide Print, FieldAt, FieldText, Scan, Slices, Removed, DowngradedHead, At, Holds, PassedOn;
    ForwardedIsPassedOn(h, isVictim);
    ghost var b, n := http.buffer[..], http.bufferUsed;
    StandsInBuffer(http, h);
    ScanPrinted(b, n, h);
    SecondScanAgrees(b, n, h);
    DowngradeKeepsShape(h);
    DowngradeTwice(h);
    ghost var g := DowngradedHead(h);
    var payload, counted := ProcessHeadersAndGetPayload(http);
    http.payload := Some(Pointer(http, payload.value));
    ScanPrinted(http.buffer[..], n, g);
    var payload', saved := ProcessHeadersAndGetPayload(http);
    assert |saved| == |counted|;
    SaveHeaders(http, saved);
    http.payload := Some(Pointer(http, payload'.value));
    Filled(http, g);
    if isVictim {
      FindAndRemoveHeader(http, CONTENT_LENGTH, g);
      FindAndRemoveHeader(http, ACCEPT_RANGES, Removed(g, CONTENT_LENGTH));
    } else {
      FindAndRemoveHeader(http, CONNECTION, g);
      FindAndRemoveHeader(http, ACCEPT_ENCODING, Removed(g, CONNECTION));
    }
  }

  // ----- in the names' own letters

  lemma NamesSpelled()
    ensures CONTENT_LENGTH == Ascii("Content-Length") && ACCEPT_RANGES == Ascii("Accept-Ranges")
    ensures CONNECTION == Ascii("Connection") && ACCEPT_ENCODING == Ascii("Accept-Encoding")
  {
  }

  /** The field begins with the name, in any case, and a colon. */
  ghost predicate HasName(f: Field, name: string) {
    f != [] && exists n: Text :: LowerText(n) == LowerText(Ascii(name)) && n + Ascii(":") <= FieldText(f)
  }

  lemma HasNameIff(f: Field, name: string)
    requires f != []
    ensures HasName(f, name) <==> Named(FieldText(f), Ascii(name))
  {
    hide FieldText;
    var t, k := FieldText(f), |name|;
    assert Ascii(":") == [COLON];
    if Named(t, Ascii(name)) {
      assert t[..k] + Ascii(":") == t[..k + 1];
    }
    if HasName(f, name) {
      var n: Text :| LowerText(n) == LowerText(Ascii(name)) && n + Ascii(":") <= t;
      assert |n| == |LowerText(n)| == k;
      assert t[..k] == n && t[k] == (n + Ascii(":"))[k];
    }
  }

  /** The first field with the name is the `i`th; there is none for `i` the number of fields. */
  ghost predicate IsFirst(fs: seq<Field>, name: string, i: nat) {
    && i <= |fs| && (i < |fs| ==> HasName(fs[i], name))
    && (forall j :: 0 <= j < i ==> !HasName(fs[j], name))
  }

  /** `gs` are the fields `fs` in order, less the first that has the name. */
  ghost predicate FirstGone(fs: seq<Field>, gs: seq<Field>, name: string) {
    exists i: nat :: IsFirst(fs, name, i) && gs == if i < |fs| then fs[..i] + fs[i + 1..] else fs
  }

  lemma {:induction false} FirstNamed(fs: seq<Field>, name: string) returns (i: nat)
    requires forall j :: 0 <= j < |fs| ==> fs[j] != []
    ensures IsFirst(fs, name, i)
    ensures WithoutNamed(fs, Ascii(name)) == if i < |fs| then fs[..i] + fs[i + 1..] else fs
  {
    hide HasName, Named, FieldText, Ascii;
    i := 0;
    if fs != [] {
      HasNameIff(fs[0], name);
      if !Named(FieldText(fs[0]), Ascii(name)) {
        var rest := fs[1..];
        var k := FirstNamed(rest, name);
        i := k + 1;
        assert forall j :: 0 < j < i ==> fs[j] == rest[j - 1];
        if k < |rest| {
          assert [fs[0]] + (rest[..k] + rest[k + 1..]) == fs[..i] + fs[i + 1..];
        }
      }
    }
  }

  lemma WithoutIsFirstGone(fs: seq<Field>, name: string)
    requires forall j :: 0 <= j < |fs| ==> fs[j] != []
    ensures FirstGone(fs, WithoutNamed(fs, Ascii(name)), name)
  {
    hide WithoutNamed, IsFirst;
    var i := FirstNamed(fs, name);
  }

  /** The names that are taken out: a victim's are of the response. */
  function NamesOut(isVictim: bool): (string, string) {
    if isVictim then ("Content-Length", "Accept-Ranges") else ("Connection", "Accept-Encoding")
  }

  /** `g` is what is sent on of `h`. */
  ghost predicate PassedOn(h: Head, g: Head, isVictim: bool) {
    var (first, second) := NamesOut(isVictim);
    && g.body == h.body && g.first == DowngradedLine(h.first)
    && exists mid :: FirstGone(h.fields, mid, first) && FirstGone(mid, g.fields, second)
  }

  lemma ForwardedIsPassedOn(h: Head, isVictim: bool)
    requires h.WellFormed()
    ensures PassedOn(h, Forwarded(h, isVictim), isVictim)
  {
    hide FirstGone, WithoutNamed, DowngradedLine;
    NamesSpelled();
    HaveLines(h);
    var (first, second) := NamesOut(isVictim);
    var mid := WithoutNamed(h.fields, Ascii(first));
    KeepsShape(h, Ascii(first));
    HaveLines(Removed(h, Ascii(first)));
    WithoutIsFirstGone(h.fields, first);
    WithoutIsFirstGone(mid, second);
  }

  ghost predicate AtMostOnce(fs: seq<Field>, name: string) {
    forall i, j :: 0 <= i < j < |fs| ==> !(HasName(fs[i], name) && HasName(fs[j], name))
  }

  lemma GoneForGood(fs: seq<Field>, gs: seq<Field>, name: string)
    requires FirstGone(fs, gs, name)
    ensures forall g :: g in gs ==> g in fs
    ensures AtMostOnce(fs, name) ==> forall g :: g in gs ==> !HasName(g, name)
    ensures forall other :: AtMostOnce(fs, other) ==> AtMostOnce(gs, other)
  {
    hide HasName;
  }

  /** When neither name comes twice, no field that is sent on has one of them. */
  lemma NamesAreGone(h: Head, g: Head, isVictim: bool)
    requires PassedOn(h, g, isVictim)
    requires var (first, second) := NamesOut(isVictim); AtMostOnce(h.fields, first) && AtMostOnce(h.fields, second)
    ensures var (first, second) := NamesOut(isVictim);
      forall f :: f in g.fields ==> !HasName(f, first) && !HasName(f, second)
  {
    hide HasName, FirstGone, AtMostOnce, DowngradedLine;
    var (first, second) := NamesOut(isVictim);
    var mid :| FirstGone(h.fields, mid, first) && FirstGone(mid, g.fields, second);
    GoneForGood(h.fields, mid, first);
    GoneForGood(mid, g.fields, second);
  }

  /** The version of a first line that ends with HTTP/1.x becomes 1.0; other lines stay. */
  lemma DowngradeIs(p: Text, x: byte, y: byte)
    ensures DowngradedLine(p + Ascii("HTTP/1") + [x, y]) == p + Ascii("HTTP/1") + [x] + Ascii("0")
  {
    hide Ascii;
    VersionIs();
    var t := p + Ascii("HTTP/1") + [x, y];
    assert t[|t| - 8..|t| - 2] == VERSION;
    assert t[|t| - 3] == VERSION[5];
  }

  lemma VersionIs()
    ensures VERSION == Ascii("HTTP/1") && Ascii("0") == [48]
    ensures Ascii("HTTP/1.1") == VERSION + [46, 49] && Ascii("HTTP/1.0") == VERSION + [46] + [48]
  {
  }

  /** HTTP/1.1 at the end of a line becomes HTTP/1.0. */
  lemma NewVersionGoes(p: Text)
    ensures DowngradedLine(p + Ascii("HTTP/1.1")) == p + Ascii("HTTP/1.0")
  {
    hide Ascii, DowngradedLine;
    VersionIs();
    DowngradeIs(p, 46, 49);
    assert p + VERSION + [46, 49] == p + Ascii("HTTP/1.1");
    assert p + VERSION + [46] + [48] == p + Ascii("HTTP/1.0");
  }

  lemma OtherLinesStay(t: Text)
    requires |t| < 8 || t[|t| - 8..|t| - 2] != Ascii("HTTP/1")
    ensures DowngradedLine(t) == t
  {
    assert VERSION == Ascii("HTTP/1");
  }

  // ----- a request

  function Line(s: string): Field {
    [Ascii(s)]
  }

  const REQUEST := Head(Ascii("GET / HTTP/1.1"),
    [HOST, KEEP, CODING], [])

  lemma LineIs(s: string)
    ensures FieldText(Line(s)) == Ascii(s)
  {
    var f := Line(s);
    assert f[1..] == [] && PrintField(f) == Ascii(s) + CRLF;
  }

  lemma LineIsField(s: string)
    requires s != "" && forall i :: 0 <= i < |s| ==> ' ' < s[i] <= '~' || (0 < i && s[i] == ' ')
    ensures IsField(Line(s))
  {
    assert forall i :: 0 <= i < |s| ==> 32 <= s[i] as int < 128;
  }

  lemma LineHasName(rest: string, name: string)
    ensures HasName(Line(name + ":" + rest), name)
  {
    hide FieldText;
    var s := name + ":" + rest;
    LineIs(s);
    assert Ascii(s) == Ascii(name) + Ascii(":") + Ascii(rest);
  }

  lemma LineHasNotName(s: string, name: string)
    requires |name| < |s| && s[|name|] as int % 128 != 58
    ensures !HasName(Line(s), name)
  {
    hide FieldText;
    LineIs(s);
    HasNameIff(Line(s), name);
  }

  lemma AsciiAppend(a: string, b: string)
    ensures Ascii(a + b) == Ascii(a) + Ascii(b)
  {
  }

  lemma PrintLines(s: string, fs: seq<Field>)
    ensures PrintFields([Line(s)] + fs) == Ascii(s + "\r\n") + PrintFields(fs)
  {
    hide Ascii;
    var f := Line(s);
    assert ([f] + fs)[1..] == fs && f[1..] == [];
    assert PrintField(f) == Ascii(s) + CRLF;
    AsciiAppend(s, "\r\n");
    LineEnd();
  }

  lemma LineEnd()
    ensures Ascii("\r\n") == CRLF
  {
  }

  const HOST := Line("Host: a")
  const KEEP := Line("Connection: keep-alive")
  const CODING := Line("Accept-Encoding: gzip")

  lemma RequestFields()
    ensures IsField(HOST) && IsField(KEEP) && IsField(CODING)
  {
    hide IsField, Line;
    LineIsField("Host: a");
    LineIsField("Connection: keep-alive");
    LineIsField("Accept-Encoding: gzip");
  }

  lemma RequestNames()
    ensures !HasName(HOST, "Connection") && !HasName(HOST, "Accept-Encoding")
    ensures HasName(KEEP, "Connection") && HasName(CODING, "Accept-Encoding")
  {
    hide HasName, Line;
    ShortHasNotName("Host: a", "Connection");
    ShortHasNotName("Host: a", "Accept-Encoding");
    LineHasName(" keep-alive", "Connection");
    LineHasName(" gzip", "Accept-Encoding");
    assert "Connection" + ":" + " keep-alive" == "Connection: keep-alive";
    assert "Accept-Encoding" + ":" + " gzip" == "Accept-Encoding: gzip";
  }

  lemma ShortHasNotName(s: string, name: string)
    requires |s| <= |name|
    ensures !HasName(Line(s), name)
  {
    hide FieldText;
    LineIs(s);
    HasNameIff(Line(s), name);
  }

  lemma RequestIsWellFormed()
    ensures REQUEST.WellFormed() && NoDelims(REQUEST.first)
  {
    hide IsField;
    RequestFields();
  }

  /** Of the request only the first line, in its old version, and the host are left. */
  lemma RequestForwarded()
    ensures REQUEST.WellFormed()
    ensures Forwarded(REQUEST, false) == Head(Ascii("GET / HTTP/1.0"), [HOST], [])
  {
    hide FieldText, Named, HasName, IsField, DowngradedLine, Ascii;
    RequestIsWellFormed();
    RequestNames();
    NamesSpelled();
    NewVersionGoes(Ascii("GET / "));
    AsciiAppend("GET / ", "HTTP/1.1");
    AsciiAppend("GET / ", "HTTP/1.0");
    assert "GET / " + "HTTP/1.1" == "GET / HTTP/1.1" && "GET / " + "HTTP/1.0" == "GET / HTTP/1.0";
    HaveLines(REQUEST);
    HasNameIff(HOST, "Connection");
    HasNameIff(KEEP, "Connection");
    WithoutNamedIs(REQUEST.fields, CONNECTION, 1);
    assert Without(REQUEST.fields, 1) == [HOST, CODING];
    HasNameIff(HOST, "Accept-Encoding");
    HasNameIff(CODING, "Accept-Encoding");
    WithoutNamedIs([HOST, CODING], ACCEPT_ENCODING, 1);
    assert Without([HOST, CODING], 1) == [HOST];
  }

  /** A head of three short fields, and of one. */
  lemma Printed(first: string, a: string, b: string, c: string)
    ensures Print(Head(Ascii(first), [Line(a), Line(b), Line(c)], [])) ==
      Ascii(first + "\r\n" + (a + "\r\n") + (b + "\r\n") + (c + "\r\n") + "\r\n")
    ensures Print(Head(Ascii(first), [Line(a)], [])) == Ascii(first + "\r\n" + (a + "\r\n") + "\r\n")
  {
    hide Ascii, PrintFields, Line;
    PrintLines(a, [Line(b), Line(c)]);
    PrintLines(b, [Line(c)]);
    PrintLines(c, []);
    PrintLines(a, []);
    assert [Line(a)] + [Line(b), Line(c)] == [Line(a), Line(b), Line(c)] && [Line(b)] + [Line(c)] == [Line(b), Line(c)];
    assert [Line(c)] + [] == [Line(c)] && [Line(a)] + [] == [Line(a)];
    NothingPrinted();
    LineEnd();
    AsciiFive(first, a, b, c);
  }

  lemma NothingPrinted()
    ensures PrintFields([]) == []
  {
  }

  lemma AsciiFive(first: string, a: string, b: string, c: string)
    ensures Ascii(first + "\r\n" + (a + "\r\n") + (b + "\r\n") + (c + "\r\n") + "\r\n") ==
      Ascii(first) + Ascii("\r\n") + (Ascii(a + "\r\n") + (Ascii(b + "\r\n") + (Ascii(c + "\r\n") + []))) +
      Ascii("\r\n") + []
    ensures Ascii(first + "\r\n" + (a + "\r\n") + "\r\n") ==
      Ascii(first) + Ascii("\r\n") + (Ascii(a + "\r\n") + []) + Ascii("\r\n") + []
  {
    hide Ascii;
    var end := "\r\n";
    AsciiAppend(first, end);
    AsciiAppend(first + end, a + end);
    AsciiAppend(first + end + (a + end), b + end);
    AsciiAppend(first + end + (a + end) + (b + end), c + end);
    AsciiAppend(first + end + (a + end) + (b + end) + (c + end), end);
    AsciiAppend(first + end + (a + end), end);
    Regroup5(Ascii(first) + Ascii(end), Ascii(a + end), Ascii(b + end), Ascii(c + end));
  }

  lemma Regroup5(a: Text, b: Text, c: Text, d: Text)
    ensures a + (b + (c + (d + []))) == a + b + c + d && a + (b + []) == a + b
  {
  }

  /** The same in bytes: what arrives, and what is sent on. */
  lemma RequestBytes()
    ensures Print(REQUEST) == Ascii("GET / HTTP/1.1" + "\r\n" + ("Host: a" + "\r\n") +
      ("Connection: keep-alive" + "\r\n") + ("Accept-Encoding: gzip" + "\r\n") + "\r\n")
    ensures Print(Head(Ascii("GET / HTTP/1.0"), [HOST], [])) ==
      Ascii("GET / HTTP/1.0" + "\r\n" + ("Host: a" + "\r\n") + "\r\n")
  {
    hide Ascii, Line, Print;
    Printed("GET / HTTP/1.1", "Host: a", "Connection: keep-alive", "Accept-Encoding: gzip");
    Printed("GET / HTTP/1.0", "Host: a", "", "");
  }
}
