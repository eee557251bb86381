/** The header table of a message (`rena/src/http.c`): filling it from the buffer, looking
names up, and removing fields from the table and the buffer together. */
module HttpHeaders {
  import opened Bytes
  import opened Wrappers
  import opened Sequences
  import opened HttpBuffer
  import opened HttpHead

  const COLON: byte := 58

  /** The first of the `size` bytes from `from` on that is one of `chars`, or -1. */
  method BufferFind(buf: array<byte>, from: nat, size: nat, chars: Text) returns (found: int)
    requires from + size <= buf.Length
    ensures -1 <= found < size
    ensures forall j :: from <= j < from + (if found < 0 then size else found) ==> buf[j] !in chars
    ensures 0 <= found ==> buf[from + found] in chars
  {
    var k := 0;
    while k < size
      invariant k <= size
      invariant forall j :: from <= j < from + k ==> buf[j] !in chars
    {
      var m := 0;
      while m < |chars|
        invariant m <= |chars| && buf[from + k] !in chars[..m]
      {
        if chars[m] == buf[from + k] {
          return k;
        }
        assert chars[..m + 1] == chars[..m] + [chars[m]];
        m := m + 1;
      }
      assert chars[..m] == chars;
      k := k + 1;
    }
    return -1;
  }

  lemma FoundDelim(b: Text, p: nat, n: nat, found: int)
    requires p <= n <= |b| && -1 <= found < n - p
    requires forall j :: p <= j < p + (if found < 0 then n - p else found) ==> b[j] !in CRLF
    requires 0 <= found ==> b[p + found] in CRLF
    ensures NextDelim(b, p, n) == if found < 0 then n else p + found
    ensures found < 0 && p < n ==> NextDelim(b, p + 1, n) == n
  {
    if 0 <= found {
      NextDelimIs(b, p, n, p + found);
    } else {
      var q := NextDelim(b, p, n);
    }
  }

  lemma ParseStepOn(s: Scanner, n: nat, p: nat)
    requires s.Within(n, p) && s.payload.None? && p < n
    ensures var q := NextDelim(s.buffer, p, n);
      if q == n then NextDelim(s.buffer, p + 1, n) == n ==> Parse(s, n, p) == Parse(s, n, p + 1)
      else Parse(s, n, p) == Parse(OnDelim(s, q + 1), n, q + 1)
  {
  }

  lemma ScanStarts(b: Text, n: nat)
    requires n < |b|
    ensures Scan(b, n) == Parse(Start(b), n, 0)
  {
  }

  lemma ParseStops(s: Scanner, n: nat, p: nat)
    requires s.Within(n, p) && (s.payload.Some? || p == n)
    ensures Parse(s, n, p) == s
  {
  }

  method Downgrade(buffer: array<byte>, begin: nat)
    requires begin <= buffer.Length
    modifies buffer
    ensures buffer[..] == Downgraded(old(buffer[..]), begin)
  {
    if 10 <= begin && buffer[begin - 10..begin - 4] == VERSION {
      assert buffer[..][begin - 10..begin - 4] == VERSION;
      buffer[begin - 5] := 49;
      buffer[begin - 3] := 48;
    }
  }

  /** The scan over the buffer, which is one byte longer than what is used of it. */
  method ProcessHeadersAndGetPayload(http: Http) returns (payload: Option<nat>, table: seq<Slice>)
    requires http.bufferUsed < http.buffer.Length
    modifies http.buffer
    ensures var t := Scan(old(http.buffer[..]), http.bufferUsed);
      http.buffer[..] == t.buffer && payload == t.payload && table == t.table
  {
    hide NextDelim, Downgraded, Parse, Scan;
    var buffer := http.buffer;
    var state := FirstLineFirstDelim;
    var oldPosition, position, size := 0, 0, http.bufferUsed;
    payload, table := None, [];
    ghost var b := buffer[..];
    ghost var s := Start(b);
    ScanStarts(b, size);
    while payload == None && position < size
      invariant position <= size && s.Within(size, position)
      invariant s == Scanner(buffer[..], oldPosition, state, table, payload)
      invariant Scan(b, size) == Parse(s, size, position)
    {
      var firstCheck := BufferFind(buffer, position, size - position, CRLF);
      FoundDelim(buffer[..], position, size, firstCheck);
      ParseStepOn(s, size, position);
      if firstCheck >= 0 {
        var expected := position + firstCheck + 1;
        s := OnDelim(s, expected);
        match state {
          case FirstLineSecondDelim =>
            oldPosition := expected;
            Downgrade(buffer, oldPosition);
            state := HeaderFirstDelim;
          case HeaderSecondDelim =>
            var testLine := BufferFind(buffer, expected, 1, [TAB, SPACE]);
            assert testLine < 0 <==> !IsBlank(buffer[expected]);
            if testLine < 0 {
              table := table + [Slice(oldPosition, expected - oldPosition - 2)];
              oldPosition := expected;
            }
            state := HeaderFirstDelim;
            var thirdCheck := BufferFind(buffer, expected, 1, CRLF);
            assert thirdCheck >= 0 <==> IsDelim(buffer[expected]);
            if thirdCheck >= 0 {
              state := HeaderThirdDelim;
            }
          case HeaderDone =>
            payload := Some(expected);
          case FirstLineFirstDelim => state := FirstLineSecondDelim;
          case HeaderFirstDelim => state := HeaderSecondDelim;
          case HeaderThirdDelim => state := HeaderDone;
        }
      }
      position := position + if firstCheck >= 0 then firstCheck + 1 else 1;
    }
    ParseStops(s, size, position);
  }

  /** A name that can be looked up: it does not run into the end of a line. */
  predicate IsName(h: Text) {
    forall i :: 0 <= i < |h| ==> !IsDelim(h[i]) && h[i] != NUL
  }

  /** The field's text is the name in any case, and a colon. */
  predicate Named(text: Text, h: Text) {
    |h| < |text| && text[|h|] == COLON && LowerText(text[..|h|]) == LowerText(h)
  }

  /** `strncasecmp(a + at, h, |h|) == 0`, where some line ends at or behind `at`. */
  method CaseEqual(a: array<byte>, at: nat, h: Text, ghost end: nat) returns (equal: bool)
    requires at <= end < a.Length && IsDelim(a[end]) && IsName(h)
    ensures equal <==> at + |h| <= end && LowerText(a[at..at + |h|]) == LowerText(h)
  {
    var k := 0;
    while k < |h|
      invariant k <= |h| && at + k <= end
      invariant forall i :: 0 <= i < k ==> Lower(a[at + i]) == Lower(h[i])
    {
      if Lower(a[at + k]) != Lower(h[k]) {
        if at + |h| <= end {
          assert LowerText(a[at..at + |h|])[k] != LowerText(h)[k];
        }
        return false;
      }
      k := k + 1;
    }
    return true;
  }

  lemma NamedInBuffer(b: Text, at: nat, text: Text, h: Text, probe: byte)
    requires At(b, at, text + CRLF)
    requires at + |h| < |b| ==> probe == b[at + |h|]
    ensures |h| <= |text| ==> b[at..at + |h|] == text[..|h|]
    ensures at + |text| < |b| && IsDelim(b[at + |text|])
    ensures Named(text, h) <==>
      probe == COLON && |h| <= |text| && LowerText(b[at..at + |h|]) == LowerText(h)
  {
    AtSplit(b, at, text, CRLF);
    AtCRLF(b, at + |text|);
    if |h| <= |text| {
      assert b[at..at + |h|] == b[at..at + |text|][..|h|];
    }
    if |h| < |text| {
      assert b[at + |h|] == b[at..at + |text|][|h|];
    }
  }

  /** The structure describes the printed head in its buffer. */
  ghost predicate Holds(http: Http, h: Head)
    reads http, http.buffer
  {
    && http.Valid() && Spare(http.FillOf()) && h.WellFormed() && http.Contents() == Print(h)
    && |http.headers| == |h.fields|
    && (forall i :: 0 <= i < |h.fields| ==>
          && http.headers[i] == Pointer(http, FieldAt(h, i))
          && http.headersLength[i] == |FieldText(h.fields[i])|)
    && http.payload == Some(Pointer(http, BodyAt(h)))
  }

  /** The position of the first field with the name, or -1. */
  method FindHeader(http: Http, name: Text, ghost h: Head) returns (found: int)
    requires Holds(http, h) && IsName(name)
    ensures -1 <= found < |h.fields|
    ensures forall i :: 0 <= i < (if found < 0 then |h.fields| else found) ==> !Named(FieldText(h.fields[i]), name)
    ensures 0 <= found ==> Named(FieldText(h.fields[found]), name)
  {
    hide Print, PrintField, PrintFields, FieldAt, FieldText, Named, At;
    var i := 0;
    while i < |http.headers|
      modifies {}
      invariant i <= |h.fields|
      invariant forall k :: 0 <= k < i ==> !Named(FieldText(h.fields[k]), name)
    {
      var at := http.headers[i].at;
      ghost var b := http.buffer[..];
      ghost var text := FieldText(h.fields[i]);
      HeldField(http, h, i);
      // the byte looked at may be anywhere behind a short field
      var probe: byte := *;
      if at + |name| < http.buffer.Length {
        probe := http.buffer[at + |name|];
      }
      NamedInBuffer(b, at, text, name, probe);
      if probe == COLON {
        var equal := CaseEqual(http.buffer, at, name, at + |text|);
        if equal {
          return i;
        }
      }
      i := i + 1;
    }
    return -1;
  }

  lemma HeldField(http: Http, h: Head, i: nat)
    requires Holds(http, h) && i < |h.fields|
    ensures At(http.buffer[..], http.headers[i].at, FieldText(h.fields[i]) + CRLF)
    ensures FieldAt(h, i + 1) == FieldAt(h, i) + |FieldText(h.fields[i])| + 2 <= http.bufferUsed
  {
    var b := http.buffer[..];
    assert b[0..http.bufferUsed] == http.Contents();
    SliceHoldsField(b, h, i);
    BlankLineStands(b, h);
  }

  /** The fields without the first one that has the name. */
  function WithoutNamed(fs: seq<Field>, name: Text): (r: seq<Field>)
    requires forall i :: 0 <= i < |fs| ==> fs[i] != []
    ensures |fs| - 1 <= |r| <= |fs|
  {
    if fs == [] then []
    else if Named(FieldText(fs[0]), name) then fs[1..]
    else [fs[0]] + WithoutNamed(fs[1..], name)
  }

  lemma {:induction false} WithoutNamedIs(fs: seq<Field>, name: Text, found: int)
    requires forall i :: 0 <= i < |fs| ==> fs[i] != []
    requires -1 <= found < |fs|
    requires forall i :: 0 <= i < (if found < 0 then |fs| else found) ==> !Named(FieldText(fs[i]), name)
    requires 0 <= found ==> Named(FieldText(fs[found]), name)
    ensures WithoutNamed(fs, name) == if found < 0 then fs else Without(fs, found)
  {
    hide FieldText, Named;
    if fs != [] && found != 0 {
      WithoutNamedIs(fs[1..], name, if found < 0 then -1 else found - 1);
    }
  }

  function Removed(h: Head, name: Text): (r: Head)
    requires h.WellFormed()
  {
    HaveLines(h);
    h.(fields := WithoutNamed(h.fields, name))
  }

  lemma HaveLines(h: Head)
    requires h.WellFormed()
    ensures forall i :: 0 <= i < |h.fields| ==> h.fields[i] != []
  {
    assert forall i :: 0 <= i < |h.fields| ==> IsField(h.fields[i]);
  }

  /** Where the later fields and the body end up when the `k`th field goes. */
  lemma FieldAtWithout(h: Head, k: nat, i: nat)
    requires k < |h.fields| && i <= |h.fields| - 1
    ensures var g := h.(fields := Without(h.fields, k));
      FieldAt(g, i) == if i <= k then FieldAt(h, i) else FieldAt(h, i + 1) - (FieldAt(h, k + 1) - FieldAt(h, k))
  {
    hide PrintField, PrintFields;
    var fs := h.fields;
    var gs := Without(fs, k);
    if i <= k {
      assert gs[..i] == fs[..i];
    } else {
      PrintAround(h, k);
      assert gs[..i] == fs[..k] + fs[k + 1..i + 1];
      PrintFieldsAppend(fs[..k], fs[k + 1..i + 1]);
      assert fs[..i + 1] == fs[..k + 1] + fs[k + 1..i + 1];
      PrintFieldsAppend(fs[..k + 1], fs[k + 1..i + 1]);
    }
  }

  lemma FieldsWithout(h: Head, k: nat, diff: nat)
    requires h.WellFormed() && k < |h.fields| && diff == FieldAt(h, k + 1) - FieldAt(h, k)
    ensures var g := h.(fields := Without(h.fields, k));
      && (forall i :: 0 <= i <= k ==> FieldAt(g, i) == FieldAt(h, i))
      && (forall i :: k <= i <= |g.fields| ==> FieldAt(g, i) == FieldAt(h, i + 1) - diff)
      && (forall i :: 0 <= i < |g.fields| ==> g.fields[i] == h.fields[if i < k then i else i + 1])
  {
    hide FieldAt;
    var g := h.(fields := Without(h.fields, k));
    forall i | 0 <= i <= k
      ensures FieldAt(g, i) == FieldAt(h, i)
    {
      FieldAtWithout(h, k, i);
    }
    forall i | k <= i <= |g.fields|
      ensures FieldAt(g, i) == FieldAt(h, i + 1) - diff
    {
      FieldAtWithout(h, k, i);
    }
  }

  /** Cutting a field's bytes out of the print gives the print without the field. */
  lemma PrintWithout(h: Head, k: nat)
    requires h.WellFormed() && k < |h.fields|
    ensures FieldAt(h, k) < FieldAt(h, k + 1) <= |Print(h)|
    ensures Print(h.(fields := Without(h.fields, k))) == Print(h)[..FieldAt(h, k)] + Print(h)[FieldAt(h, k + 1)..]
    ensures h.(fields := Without(h.fields, k)).WellFormed()
  {
    hide PrintField, PrintFields;
    PrintAround(h, k);
    assert IsField(h.fields[k]);
    var before, after := h.first + CRLF + PrintFields(h.fields[..k]), PrintFields(h.fields[k + 1..]);
    var f, rest := PrintField(h.fields[k]), after + CRLF + h.body;
    PrintFieldsAppend(h.fields[..k], h.fields[k + 1..]);
    Regroup(h.first, CRLF, PrintFields(h.fields[..k]), [], after, CRLF, h.body);
    assert PrintFields(h.fields[..k]) + [] + after == PrintFields(h.fields[..k]) + after;
    assert before + [] + rest == before + rest;
    CutMiddle(before, f, rest);
  }

  lemma CutMiddle(s: Text, m: Text, t: Text)
    ensures (s + m + t)[..|s|] + (s + m + t)[|s| + |m|..] == s + t
  {
  }

  /** Moves the table's later entries one place down and `diff` bytes back. */
  method ShiftTable(http: Http, found: nat, diff: nat)
    requires found < |http.headers| == |http.headersLength|
    requires forall k :: found < k < |http.headers| ==> http.headers[k].base == http && diff <= http.headers[k].at
    modifies http`headers, http`headersLength
    ensures |http.headers| == old(|http.headers|) - 1
    ensures http.headersLength == Without(old(http.headersLength), found)
    ensures forall k :: 0 <= k < found ==> http.headers[k] == old(http.headers)[k]
    ensures forall k :: found <= k < |http.headers| ==>
      http.headers[k] == Pointer(http, old(http.headers)[k + 1].at - diff)
  {
    ghost var was, lengths := http.headers, http.headersLength;
    var i := found;
    while i + 1 < |http.headers|
      invariant found <= i < |http.headers| == |http.headersLength| == |was|
      invariant forall k :: 0 <= k < found ==> http.headers[k] == was[k] && http.headersLength[k] == lengths[k]
      invariant forall k :: found <= k < i ==>
        http.headers[k] == Pointer(http, was[k + 1].at - diff) && http.headersLength[k] == lengths[k + 1]
      invariant forall k :: i < k < |was| ==> http.headers[k] == was[k] && http.headersLength[k] == lengths[k]
    {
      http.headers := http.headers[i := Pointer(http, http.headers[i + 1].at - diff)];
      http.headersLength := http.headersLength[i := http.headersLength[i + 1]];
      i := i + 1;
    }
    http.headers, http.headersLength := http.headers[..i], http.headersLength[..i];
  }

  /** Takes the first field with the name out of the buffer and the table: what is left is
  the print of the other fields and the same body, and the structure describes it. */
  method FindAndRemoveHeader(http: Http, hdr: Text, ghost h: Head)
    requires Holds(http, h) && IsName(hdr)
    modifies http, http.buffer
    ensures Holds(http, Removed(h, hdr))
  {
    hide Print, PrintField, PrintFields, FieldAt, FieldText, Named, At, IsField, IsName, WithoutNamed;
    var found := FindHeader(http, hdr, h);
    HaveLines(h);
    WithoutNamedIs(h.fields, hdr, found);
    if found >= 0 {
      RemoveField(http, found, h);
      assert Removed(h, hdr) == h.(fields := Without(h.fields, found));
    } else {
      assert Removed(h, hdr) == h;
    }
  }

  /** Closes the gap that a field leaves, in the buffer and in the table. */
  method RemoveField(http: Http, found: nat, ghost h: Head)
    requires Holds(http, h) && found < |h.fields|
    modifies http, http.buffer
    ensures Holds(http, h.(fields := Without(h.fields, found)))
  {
    hide Print, PrintField, PrintFields, FieldAt, FieldText, At, IsField;
    HaveLines(h);
    var hdrFound := http.headers[found].at;
    var next := if found + 1 >= |http.headers| then http.payload.value.at - 2 else http.headers[found + 1].at;
    var diff := next - hdrFound;
    PrintWithout(h, found);
    FieldsBehind(h, found + 1);
    CloseGap(http.buffer, hdrFound, next, http.bufferUsed);
    ShiftTable(http, found, diff);
    http.payload := Some(Pointer(http, http.payload.value.at - diff));
    http.bufferUsed := http.bufferUsed - diff;
    StillHolds(http, h, found, diff);
  }

  lemma StillHolds(http: Http, h: Head, found: nat, diff: nat)
    requires h.WellFormed() && found < |h.fields| && diff == FieldAt(h, found + 1) - FieldAt(h, found)
    requires STRUCT_SIZE <= http.totalBlock && http.buffer.Length == Capacity(http.totalBlock)
    requires http.bufferUsed < http.buffer.Length
    requires http.Contents() == Print(h.(fields := Without(h.fields, found)))
    requires |http.headers| == |http.headersLength| == |h.fields| - 1
    requires forall k :: found < k <= |h.fields| ==> diff <= FieldAt(h, k)
    requires forall k :: 0 <= k < found ==> http.headers[k] == Pointer(http, FieldAt(h, k))
    requires forall k :: found <= k < |http.headers| ==> http.headers[k] == Pointer(http, FieldAt(h, k + 1) - diff)
    requires forall k :: 0 <= k < |http.headers| ==>
      http.headersLength[k] == |FieldText(h.fields[if k < found then k else k + 1])|
    requires http.payload == Some(Pointer(http, BodyAt(h) - diff))
    ensures Holds(http, h.(fields := Without(h.fields, found)))
  {
    hide Print, PrintField, PrintFields, FieldAt, FieldText;
    var g := h.(fields := Without(h.fields, found));
    FieldsWithout(h, found, diff);
    PrintWithout(h, found);
    FieldsInPrint(g);
    assert |http.Contents()| == http.bufferUsed;
    assert http.payload == Some(Pointer(http, BodyAt(g)));
    forall i | 0 <= i < |g.fields|
      ensures http.headers[i] == Pointer(http, FieldAt(g, i)) && http.headersLength[i] == |FieldText(g.fields[i])|
    {
    }
    assert http.Valid();
    assert g.WellFormed();
  }

  lemma FieldsBehind(h: Head, k: nat)
    requires k <= |h.fields|
    ensures forall i :: k <= i <= |h.fields| ==> FieldAt(h, k) <= FieldAt(h, i)
  {
    forall i | k <= i <= |h.fields|
      ensures FieldAt(h, k) <= FieldAt(h, i)
    {
      assert h.fields[..i] == h.fields[..k] + h.fields[k..i];
      PrintFieldsAppend(h.fields[..k], h.fields[k..i]);
    }
  }

  lemma FieldsInPrint(h: Head)
    ensures forall i :: 0 <= i <= |h.fields| ==> FieldAt(h, i) <= BodyAt(h) <= |Print(h)|
  {
    assert h.fields[..|h.fields|] == h.fields;
    forall i | 0 <= i <= |h.fields|
      ensures FieldAt(h, i) <= BodyAt(h)
    {
      FieldAtGrows(h, i);
    }
  }

  /** `memmove` of the tail over the gap. */
  method CloseGap(buffer: array<byte>, to: nat, from: nat, used: nat)
    requires to <= from <= used <= buffer.Length
    modifies buffer
    ensures buffer[..used - (from - to)] == old(buffer[..used])[..to] + old(buffer[..used])[from..]
  {
    forall k | 0 <= k < used - from {
      buffer[to + k] := buffer[from + k];
    }
  }

  /** Scanning the buffer anew after a removal gives the table the removal left, exactly
  when it left a field. */
  lemma RescanAgreesIff(b: Text, n: nat, h: Head, name: Text)
    requires h.WellFormed() && Removed(h, name).WellFormed()
    requires At(b, 0, Print(Removed(h, name))) && |Print(Removed(h, name))| == n < |b|
    ensures
      (Scan(b, n).table == Slices(Removed(h, name)) && Scan(b, n).payload == Some(BodyAt(Removed(h, name))))
      <==> (|h.fields| >= 2 || (|h.fields| == 1 && !Named(FieldText(h.fields[0]), name)))
  {
    HaveLines(h);
    ScanAgreesIff(b, n, Removed(h, name));
  }

  /** A head with `Connection:` as its one field, after that field has been removed. */
  lemma LoneFieldIsNotSeenGone(b: Text)
    ensures var h := Head([], [[CONNECTION + [COLON]]], []);
      && h.WellFormed() && Removed(h, CONNECTION).fields == []
      && (At(b, 0, Print(Removed(h, CONNECTION))) && |b| == 5 ==>
            && Print(Removed(h, CONNECTION)) == CRLF + CRLF
            && (Scan(b, 4).table != Slices(Removed(h, CONNECTION)) ||
                Scan(b, 4).payload != Some(BodyAt(Removed(h, CONNECTION)))))
  {
    var line := CONNECTION + [COLON];
    var f: Field := [line];
    var h := Head([], [f], []);
    assert IsField(f);
    assert PrintField(f) == line + CRLF + PrintField(f[1..]);
    assert FieldText(f) == line;
    assert line[..|CONNECTION|] == CONNECTION;
    assert Named(FieldText(f), CONNECTION);
    assert h.fields[1..] == [];
    var g := Removed(h, CONNECTION);
    assert Print(g) == CRLF + CRLF;
    if At(b, 0, Print(g)) && |b| == 5 {
      RescanAgreesIff(b, 4, h, CONNECTION);
    }
  }

  const CONTENT_LENGTH: Text := [67, 111, 110, 116, 101, 110, 116, 45, 76, 101, 110, 103, 116, 104]
  const ACCEPT_RANGES: Text := [65, 99, 99, 101, 112, 116, 45, 82, 97, 110, 103, 101, 115]
  const CONNECTION: Text := [67, 111, 110, 110, 101, 99, 116, 105, 111, 110]
  const ACCEPT_ENCODING: Text := [65, 99, 99, 101, 112, 116, 45, 69, 110, 99, 111, 100, 105, 110, 103]
}
