/**
 Reading a form back: its delimiters first, then the headers of its parts. The reader knows nothing of the
 encoder; what it gives back is what was encoded, under exactly these conditions.
 */
module FormReader {
  import opened Wire
  import opened Multipart

  // ---------------------------------------------------------------- reading the form back

  /** Where a pattern first occurs. */
  function Find(d: Bytes, s: Bytes): (r: Option<nat>)
    requires d != []
    ensures r.Some? ==> r.value + |d| <= |s| && s[r.value..][..|d|] == d
  {
    if |s| < |d| then None
    else if s[..|d|] == d then Some(0)
    else
      match Find(d, s[1..])
      case None => None
      case Some(k) => assert s[1..][k..] == s[k + 1..]; Some(k + 1)
  }

  function WithText(text: Bytes, more: Option<seq<Bytes>>): Option<seq<Bytes>> {
    match more
    case None => None
    case Some(texts) => Some([text] + texts)
  }

  /** Body parts, each up to the next delimiter, until the closing one. */
  function ReadParts(boundary: Bytes, s: Bytes): Option<seq<Bytes>>
    decreases |s|
  {
    if |s| >= 2 && s[0] == 13 && s[1] == 10 then
      var d := Delimiter(boundary);
      match Find(d, s[2..])
      case None => None
      case Some(k) =>
        WithText(s[2..][..k], ReadParts(boundary, s[2..][k + |d|..]))
    else if s == [45, 45, 13, 10] then Some([])
    else None
  }

  function ReadForm(boundary: Bytes, s: Bytes): Option<seq<Bytes>> {
    var opening := [45, 45] + boundary;
    if opening <= s then ReadParts(boundary, s[|opening|..]) else None
  }

  /** A pattern whose first byte does not come again in it is found where a text without it ends. */
  lemma {:induction false} FindAfter(d: Bytes, t: Bytes, rest: Bytes)
    requires d != [] && Find(d, t).None? && forall i :: 0 < i < |d| ==> d[i] != d[0]
    ensures Find(d, t + (d + rest)) == Some(|t|)
  {
    var s := t + (d + rest);
    if t == [] {
      assert s == d + rest;
    } else {
      assert s[1..] == t[1..] + (d + rest);
      if |t| < |d| {
        assert s[|t|] == d[0] && s[..|d|][|t|] == s[|t|];
        TooShort(d, t[1..]);
      } else {
        assert s[..|d|] == t[..|d|];
      }
      FindAfter(d, t[1..], rest);
    }
  }

  lemma TooShort(d: Bytes, t: Bytes)
    requires d != [] && |t| < |d|
    ensures Find(d, t).None?
  {
  }

  /** What comes before the first occurrence does not contain the pattern. */
  lemma {:induction false} NoneBefore(d: Bytes, s: Bytes)
    requires d != [] && Find(d, s).Some?
    ensures Find(d, s[..Find(d, s).value]).None?
  {
    var k := Find(d, s).value;
    var t := s[..k];
    if k > 0 && |d| <= k {
      assert t[..|d|] == s[..|d|];
      assert t[1..] == s[1..][..k - 1];
      NoneBefore(d, s[1..]);
    }
  }

  ghost predicate FreeOf(d: Bytes, texts: seq<Bytes>)
    requires d != []
  {
    forall i :: 0 <= i < |texts| ==> Find(d, texts[i]).None?
  }

  lemma {:induction false} ReadAreFree(boundary: Bytes, s: Bytes)
    ensures ReadParts(boundary, s).Some? ==> FreeOf(Delimiter(boundary), ReadParts(boundary, s).value)
    decreases |s|
  {
    hide Delimiter, Find;
    var d := Delimiter(boundary);
    if |s| >= 2 && s[0] == 13 && s[1] == 10 && Find(d, s[2..]).Some? {
      var k := Find(d, s[2..]).value;
      NoneBefore(d, s[2..]);
      ReadAreFree(boundary, s[2..][k + |d|..]);
    }
  }

  lemma CutAt(a: Bytes, b: Bytes)
    ensures (a + b)[..|a|] == a && (a + b)[|a|..] == b
  {
  }

  lemma LineEnd(body: Bytes)
    ensures var s := CRLF + body; |s| >= 2 && s[0] == 13 && s[1] == 10 && s[2..] == body
  {
  }

  lemma ReadStep(boundary: Bytes, s: Bytes, text: Bytes, rest: Bytes)
    requires |s| >= 2 && s[0] == 13 && s[1] == 10 && Find(Delimiter(boundary), s[2..]) == Some(|text|)
    requires s[2..][..|text|] == text && s[2..][|text| + |Delimiter(boundary)|..] == rest
    ensures ReadParts(boundary, s) == WithText(text, ReadParts(boundary, rest))
  {
    hide Find, Delimiter, WithText;
    assert s[2..][|text| + |Delimiter(boundary)|..] == rest;
  }

  /** Reading past one body part. */
  lemma ReadOne(boundary: Bytes, text: Bytes, rest: Bytes)
    requires 13 !in boundary && Find(Delimiter(boundary), text).None? && ReadParts(boundary, rest).Some?
    ensures var s := CRLF + (text + (Delimiter(boundary) + rest));
            ReadParts(boundary, s) == Some([text] + ReadParts(boundary, rest).value)
  {
    var d := Delimiter(boundary);
    var body := text + (d + rest);
    FindAfter(d, text, rest);
    hide *;
    CutAt(text, d + rest);
    Regrouped(text, d, rest);
    CutAt(text + d, rest);
    LineEnd(body);
    ReadStep(boundary, CRLF + body, text, rest);
  }

  /** Encapsulations are a delimiter and what ReadParts reads. */
  lemma {:induction false} ReadEncapsulations(boundary: Bytes, texts: seq<Bytes>) returns (rest: Bytes)
    requires 13 !in boundary && FreeOf(Delimiter(boundary), texts)
    ensures Encapsulations(boundary, texts) == Delimiter(boundary) + rest && ReadParts(boundary, rest) == Some(texts)
  {
    hide Delimiter, Find;
    if texts == [] {
      rest := DASHES + CRLF;
      Regrouped(Delimiter(boundary), DASHES, CRLF);
    } else {
      var more := ReadEncapsulations(boundary, texts[1..]);
      rest := CRLF + (texts[0] + (Delimiter(boundary) + more));
      ReadOne(boundary, texts[0], more);
      Opened(boundary, texts, more);
      assert [texts[0]] + texts[1..] == texts;
    }
  }

  lemma Opened(boundary: Bytes, texts: seq<Bytes>, more: Bytes)
    requires texts != [] && Encapsulations(boundary, texts[1..]) == Delimiter(boundary) + more
    ensures Encapsulations(boundary, texts)
         == Delimiter(boundary) + (CRLF + (texts[0] + (Delimiter(boundary) + more)))
  {
    var d := Delimiter(boundary);
    assert Encapsulations(boundary, texts) == ((d + CRLF) + texts[0]) + (d + more);
    hide *;
    Regrouped(d + CRLF, texts[0], d + more);
    Regrouped(d, CRLF, texts[0] + (d + more));
  }

  /**
   The delimiters are unambiguous: a form can be taken apart again into exactly its parts, if and only if
   none of them contains the delimiter. The boundary must have no carriage return in it.
   */
  lemma FormReadsBack(boundary: Bytes, texts: seq<Bytes>)
    requires 13 !in boundary && texts != []
    ensures ReadForm(boundary, Form(boundary, texts)) == Some(texts) <==> FreeOf(Delimiter(boundary), texts)
  {
    var rest := FormOpens(boundary, texts);
    ReadAreFree(boundary, rest);
    if FreeOf(Delimiter(boundary), texts) {
      var read := ReadEncapsulations(boundary, texts);
      hide *;
      SameAfter(Delimiter(boundary), rest, read);
    }
  }

  lemma FormOpens(boundary: Bytes, texts: seq<Bytes>) returns (rest: Bytes)
    requires texts != []
    ensures ReadForm(boundary, Form(boundary, texts)) == ReadParts(boundary, rest)
    ensures Encapsulations(boundary, texts) == Delimiter(boundary) + rest
  {
    var opening, more := DASHES + boundary, Encapsulations(boundary, texts[1..]);
    rest := (CRLF + texts[0]) + more;
    assert Form(boundary, texts) == (opening + CRLF + texts[0]) + more;
    assert Delimiter(boundary) == CRLF + opening;
    FormCloses(boundary, texts);
    assert Form(boundary, texts) == opening + rest by {
      hide *;
      Regrouped(opening, CRLF, texts[0]);
      Regrouped(opening, CRLF + texts[0], more);
    }
    hide Encapsulations, Form, Delimiter, ReadParts;
    CutAt(opening, rest);
    Regrouped(CRLF, opening, rest);
  }

  /** One part read, undone. */
  lemma ReadApart(boundary: Bytes, s: Bytes) returns (text: Bytes, rest: Bytes)
    requires ReadParts(boundary, s).Some? && |s| >= 2 && s[0] == 13 && s[1] == 10
    ensures |rest| < |s| && ReadParts(boundary, rest).Some?
    ensures ReadParts(boundary, s).value == [text] + ReadParts(boundary, rest).value
    ensures s == CRLF + (text + (Delimiter(boundary) + rest))
  {
    hide Find, Delimiter;
    var d, body := Delimiter(boundary), s[2..];
    var k := Find(d, body).value;
    text, rest := body[..k], body[k + |d|..];
    FoundApart(d, body);
    assert s == CRLF + body;
  }

  lemma ReadEnds(boundary: Bytes, s: Bytes)
    requires ReadParts(boundary, s).Some? && !(|s| >= 2 && s[0] == 13 && s[1] == 10)
    ensures s == DASHES + CRLF && ReadParts(boundary, s).value == []
  {
  }

  /** What is read is what was there: after a delimiter, the encapsulations of the parts read. */
  lemma {:induction false} ReadIsWritten(boundary: Bytes, s: Bytes)
    requires ReadParts(boundary, s).Some?
    ensures Encapsulations(boundary, ReadParts(boundary, s).value) == Delimiter(boundary) + s
    decreases |s|
  {
    if |s| >= 2 && s[0] == 13 && s[1] == 10 {
      hide *;
      var text, rest := ReadApart(boundary, s);
      ReadIsWritten(boundary, rest);
      var texts := ReadParts(boundary, rest).value;
      assert ([text] + texts)[1..] == texts;
      Opened(boundary, [text] + texts, rest);
    } else {
      ReadEnds(boundary, s);
      hide Delimiter, ReadParts;
      Regrouped(Delimiter(boundary), DASHES, CRLF);
    }
  }

  lemma FoundApart(d: Bytes, s: Bytes)
    requires d != [] && Find(d, s).Some?
    ensures var k := Find(d, s).value; s == s[..k] + (d + s[k + |d|..])
  {
    var k := Find(d, s).value;
    assert s[k..][..|d|] == d && s[k..][|d|..] == s[k + |d|..];
    assert s == s[..k] + s[k..];
    hide Find;
    assert s[k..] == s[k..][..|d|] + s[k..][|d|..];
  }

  lemma ReadOpens(boundary: Bytes, s: Bytes) returns (rest: Bytes)
    requires ReadForm(boundary, s).Some?
    ensures s == (DASHES + boundary) + rest && ReadParts(boundary, rest) == ReadForm(boundary, s)
  {
    hide ReadParts;
    rest := s[|DASHES + boundary|..];
  }

  lemma DelimiterOpens(boundary: Bytes)
    ensures Delimiter(boundary) == CRLF + (DASHES + boundary)
  {
  }

  /** The reader takes apart forms and nothing else. */
  lemma OnlyFormsRead(boundary: Bytes, s: Bytes, texts: seq<Bytes>)
    requires ReadForm(boundary, s) == Some(texts) && texts != []
    ensures s == Form(boundary, texts)
  {
    var rest := ReadOpens(boundary, s);
    hide *;
    ReadIsWritten(boundary, rest);
    FormCloses(boundary, texts);
    DelimiterOpens(boundary);
    Regrouped(CRLF, DASHES + boundary, rest);
    SameAfter(CRLF, s, Form(boundary, texts));
  }

  /**
   And so for what encoding returns, on any call: it is read back as its parts if and only if no earlier
   call closed the form before its last part and none of the parts contains the delimiter.
   */
  lemma EncodingReadsBack(boundary: Bytes, parts: seq<Part>)
    requires 13 !in boundary && OpensFirst(parts) && parts != []
    ensures ReadForm(boundary, EncParts(boundary, Marked(parts))) == Some(Texts(parts))
            <==> ClosesLast(parts) && FreeOf(Delimiter(boundary), Texts(parts))
  {
    EncodesTheForm(boundary, parts);
    var encoded, texts := EncParts(boundary, Marked(parts)), Texts(parts);
    FormReadsBack(boundary, texts);
    if ReadForm(boundary, encoded) == Some(texts) {
      OnlyFormsRead(boundary, encoded, texts);
    }
  }

  // ---------------------------------------------------------------- reading the parts back

  /** A part as its reader sees it. */
  datatype Body = Body(headers: seq<(Bytes, Bytes)>, body: Bytes)

  function WithHeader(h: (Bytes, Bytes), more: Option<Body>): Option<Body> {
    match more
    case None => None
    case Some(r) => Some(Body([h] + r.headers, r.body))
  }

  /** Header lines, each a name up to a colon and a space, and a value up to a line end; the body comes last. */
  function ReadBody(s: Bytes): Option<Body>
    decreases |s|
  {
    if [13, 10] <= s then Some(Body([], s[2..]))
    else
      match Find([58, 32], s)
      case None => None
      case Some(k) =>
        var rest := s[k + 2..];
        match Find([13, 10], rest)
        case None => None
        case Some(n) =>
          WithHeader((s[..k], rest[..n]), ReadBody(rest[n + 2..]))
  }

  /** A name that does not look like the end of the headers, and neither it nor its value contains what ends it. */
  predicate Readable(h: (Bytes, Bytes)) {
    !([13, 10] <= h.0) && Find([58, 32], h.0).None? && Find([13, 10], h.1).None?
  }

  lemma {:induction false} HeadersHead(headers: seq<(Bytes, Bytes)>)
    requires headers != []
    ensures HeaderLines(headers) == HeaderLine(headers[0]) + HeaderLines(headers[1..])
    decreases |headers|
  {
    hide HeaderLine;
    var n := |headers| - 1;
    if n == 0 {
      assert HeaderLines(headers[..0]) == [] && HeaderLines(headers[1..]) == [];
    } else {
      HeadersHead(headers[..n]);
      assert headers[..n][1..] == headers[1..][..n - 1];
      Regrouped(HeaderLine(headers[0]), HeaderLines(headers[1..][..n - 1]), HeaderLine(headers[n]));
    }
  }

  /** The bytes of one part behind its delimiter. */
  function BodyText(r: Body): Bytes { HeaderLines(r.headers) + CRLF + r.body }

  /** One line in front of what else is there. */
  lemma LineFirst(r: Body)
    requires r.headers != []
    ensures var h, more := r.headers[0], BodyText(r.(headers := r.headers[1..]));
            BodyText(r) == h.0 + ([58, 32] + (h.1 + ([13, 10] + more)))
  {
    var h, lines, more := r.headers[0], HeaderLines(r.headers[1..]), BodyText(r.(headers := r.headers[1..]));
    HeadersHead(r.headers);
    assert HeaderLine(h) == h.0 + ([58, 32] + (h.1 + [13, 10]));
    hide HeaderLines, HeaderLine;
    Regrouped(HeaderLine(h), lines, CRLF);
    Regrouped(HeaderLine(h), lines + CRLF, r.body);
    assert h.0 + ([58, 32] + (h.1 + [13, 10])) + more == h.0 + ([58, 32] + (h.1 + ([13, 10] + more)));
  }

  lemma ReadLine(h: (Bytes, Bytes), more: Bytes)
    requires Readable(h)
    ensures ReadBody(h.0 + ([58, 32] + (h.1 + ([13, 10] + more)))) == WithHeader(h, ReadBody(more))
  {
    var value := h.1 + ([13, 10] + more);
    var s := h.0 + ([58, 32] + value);
    FindAfter([58, 32], h.0, value);
    FindAfter([13, 10], h.1, more);
    NameFirst(h.0, value);
    hide Find, Readable, WithHeader;
    CutAt(h.0, [58, 32] + value);
    CutAt(h.0 + [58, 32], value);
    Regrouped(h.0, [58, 32], value);
    CutAt(h.1, [13, 10] + more);
    CutAt(h.1 + [13, 10], more);
    Regrouped(h.1, [13, 10], more);
  }

  lemma NameFirst(name: Bytes, value: Bytes)
    requires !([13, 10] <= name)
    ensures !([13, 10] <= name + ([58, 32] + value))
  {
    var s := name + ([58, 32] + value);
    LineEndAt(s);
    if |name| >= 2 {
      assert s[0] == name[0] && s[1] == name[1];
      LineEndAt(name);
    } else {
      assert s[|name|] == 58;
    }
  }

  lemma LineEndAt(s: Bytes)
    requires |s| >= 2
    ensures [13, 10] <= s <==> s[0] == 13 && s[1] == 10
  {
    assert [13, 10] <= s <==> s[..2] == [13, 10];
  }

  lemma {:induction false} WrittenIsRead(r: Body)
    requires forall h :: h in r.headers ==> Readable(h)
    ensures ReadBody(BodyText(r)) == Some(r)
    decreases |r.headers|
  {
    if r.headers == [] {
      assert BodyText(r) == [13, 10] + r.body;
      assert ([13, 10] + r.body)[2..] == r.body;
    } else {
      hide ReadBody, BodyText, Readable;
      var left := r.(headers := r.headers[1..]);
      WrittenIsRead(left);
      LineFirst(r);
      ReadLine(r.headers[0], BodyText(left));
      assert [r.headers[0]] + r.headers[1..] == r.headers;
    }
  }

  /** What is read was written so, and could be read. */
  lemma {:induction false} ReadIsBody(s: Bytes)
    requires ReadBody(s).Some?
    ensures BodyText(ReadBody(s).value) == s
    ensures forall h :: h in ReadBody(s).value.headers ==> Readable(h)
    decreases |s|
  {
    hide Find, BodyText, HeaderLines;
    var r := ReadBody(s).value;
    if [13, 10] <= s {
      EmptyBody(s);
    } else {
      var k := Find([58, 32], s).value;
      var rest := s[k + 2..];
      var n := Find([13, 10], rest).value;
      ReadIsBody(rest[n + 2..]);
      NoneBefore([58, 32], s);
      NoneBefore([13, 10], rest);
      assert r.headers[1..] == ReadBody(rest[n + 2..]).value.headers;
      assert r.headers[0] == (s[..k], rest[..n]) && Readable(r.headers[0]);
      LineFirst(r);
      Split(s, k, [58, 32]);
      Split(rest, n, [13, 10]);
    }
  }

  lemma EmptyBody(s: Bytes)
    requires [13, 10] <= s
    ensures BodyText(Body([], s[2..])) == s
  {
    assert s == [13, 10] + s[2..];
  }

  lemma Split(s: Bytes, k: nat, d: Bytes)
    requires k + |d| <= |s| && s[k..][..|d|] == d
    ensures s == s[..k] + (d + s[k + |d|..])
  {
    assert s[k..] == s[k..][..|d|] + s[k + |d|..];
  }

  /** The parts of a form, each with its headers and its body. */
  function ReadBodies(texts: seq<Bytes>): Option<seq<Body>> {
    if texts == [] then Some([])
    else
      match ReadBody(texts[0])
      case None => None
      case Some(first) =>
        match ReadBodies(texts[1..])
        case None => None
        case Some(more) => Some([first] + more)
  }

  function ReadMultipart(boundary: Bytes, s: Bytes): Option<seq<Body>> {
    match ReadForm(boundary, s)
    case None => None
    case Some(texts) => ReadBodies(texts)
  }

  function Bodies(parts: seq<Part>): (r: seq<Body>)
    ensures |r| == |parts|
  {
    seq(|parts|, i requires 0 <= i < |parts| => Body(parts[i].headers, parts[i].body))
  }

  predicate AllReadable(parts: seq<Part>) {
    forall i :: 0 <= i < |parts| ==> forall h :: h in parts[i].headers ==> Readable(h)
  }

  lemma {:induction false} TextsRead(parts: seq<Part>)
    requires AllReadable(parts)
    ensures ReadBodies(Texts(parts)) == Some(Bodies(parts))
    decreases |parts|
  {
    hide ReadBody, Readable;
    if parts != [] {
      var r := Body(parts[0].headers, parts[0].body);
      assert BodyText(r) == BodyPartText(parts[0]);
      hide BodyText, BodyPartText;
      WrittenIsRead(r);
      assert Texts(parts)[1..] == Texts(parts[1..]);
      assert Bodies(parts) == [r] + Bodies(parts[1..]);
      TextsRead(parts[1..]);
    }
  }

  lemma {:induction false} BodiesAreTexts(texts: seq<Bytes>, parts: seq<Part>)
    requires ReadBodies(texts) == Some(Bodies(parts))
    ensures texts == Texts(parts) && AllReadable(parts)
    decreases |texts|
  {
    hide ReadBody, Readable;
    if texts != [] {
      var r := ReadBody(texts[0]).value;
      ReadIsBody(texts[0]);
      var all := Bodies(parts);
      assert all[0] == r && r == Body(parts[0].headers, parts[0].body);
      assert BodyText(r) == BodyPartText(parts[0]);
      hide BodyText, BodyPartText;
      assert all[1..] == Bodies(parts[1..]);
      BodiesAreTexts(texts[1..], parts[1..]);
      assert texts == [texts[0]] + texts[1..];
      assert Texts(parts) == [Texts(parts)[0]] + Texts(parts[1..]);
    }
  }

  /**
   What a call to encode returns is read back with all its headers and bodies if and only if no earlier call
   closed the form before its last part, no part contains the delimiter, and no header has in its name or
   value what would end it.
   */
  lemma PartsReadBack(boundary: Bytes, parts: seq<Part>)
    requires 13 !in boundary && OpensFirst(parts) && parts != []
    ensures ReadMultipart(boundary, EncParts(boundary, Marked(parts))) == Some(Bodies(parts))
       <==> ClosesLast(parts) && FreeOf(Delimiter(boundary), Texts(parts)) && AllReadable(parts)
  {
    EncodingReadsBack(boundary, parts);
    hide ReadForm, EncParts, Marked, ClosesLast, Texts, Bodies, FreeOf, AllReadable;
    var read := ReadForm(boundary, EncParts(boundary, Marked(parts)));
    if AllReadable(parts) { TextsRead(parts); }
    if read.Some? && ReadBodies(read.value) == Some(Bodies(parts)) { BodiesAreTexts(read.value, parts); }
  }
}
