/** The decoder of aws-chunked bodies. Bytes are written as characters. */
module AwsChunked {
  import opened Text
  import opened Wrappers

  const MAX_CHUNK := 64 * 1024 * 1024

  // Header lines.

  /** The part before the first semicolon. */
  function BeforeSemicolon(s: string): string {
    if s == "" || s[0] == ';' then "" else [s[0]] + BeforeSemicolon(s[1..])
  }

  function HexDigit(c: char): Option<nat> {
    if '0' <= c <= '9' then Some(c as int - '0' as int)
    else if 'a' <= c <= 'f' then Some(c as int - 'a' as int + 10)
    else if 'A' <= c <= 'F' then Some(c as int - 'A' as int + 10)
    else None
  }

  function HexNumber(s: string): Option<nat> {
    if s == "" then Some(0)
    else
      match (HexNumber(s[..|s| - 1]), HexDigit(s[|s| - 1]))
      case (Some(high), Some(low)) => Some(16 * high + low)
      case _ => None
  }

  /** Hexadecimal with an optional sign, within 64 bits. */
  function ParseInt(s: string): Option<int> {
    var signed := s != "" && (s[0] == '+' || s[0] == '-');
    var digits := if signed then s[1..] else s;
    if digits == "" then None
    else
      match HexNumber(digits)
      case None => None
      case Some(n) =>
        var value: int := n;
        if signed && s[0] == '-' then if n <= 0x8000_0000_0000_0000 then Some(-value) else None
        else if n < 0x8000_0000_0000_0000 then Some(n) else None
  }

  datatype Header = Blank | Size(n: int) | Malformed

  function ParseHeader(line: string): Header {
    var text := Trim(line);
    if text == "" then Blank
    else
      match ParseInt(Trim(BeforeSemicolon(text)))
      case Some(n) => Size(n)
      case None => Malformed
  }

  function Hex(n: nat): string {
    (if n < 16 then "" else Hex(n / 16)) + ["0123456789abcdef"[n % 16]]
  }

  lemma {:induction false} HexRoundTrip(n: nat)
    ensures HexNumber(Hex(n)) == Some(n)
    ensures Hex(n) != "" && forall c | c in Hex(n) :: HexDigit(c).Some?
  {
    DigitRoundTrip(n % 16);
    var d := "0123456789abcdef"[n % 16];
    if n < 16 {
      assert Hex(n) == [d] && [d][..0] == "";
    } else {
      HexRoundTrip(n / 16);
      assert Hex(n)[..|Hex(n)| - 1] == Hex(n / 16);
    }
  }

  function UpperCase(c: char): char { if 'a' <= c <= 'f' then c - 'a' + 'A' else c }

  /** Sizes may be written in either case, with nothing but hexadecimal digits. */
  lemma {:induction false} HexIgnoresCase(s: string)
    ensures HexNumber(s).Some? <==> forall c | c in s :: c in "0123456789abcdefABCDEF"
    ensures HexNumber(seq(|s|, i requires 0 <= i < |s| => UpperCase(s[i]))) == HexNumber(s)
  {
    if s != "" {
      var front, last := s[..|s| - 1], s[|s| - 1];
      HexIgnoresCase(front);
      DigitIgnoresCase(last);
      assert s == front + [last];
      var upper := seq(|s|, i requires 0 <= i < |s| => UpperCase(s[i]));
      assert upper[..|s| - 1] == seq(|front|, i requires 0 <= i < |front| => UpperCase(front[i]));
    }
  }

  lemma DigitIgnoresCase(c: char)
    ensures HexDigit(c).Some? <==> c in "0123456789abcdefABCDEF"
    ensures HexDigit(UpperCase(c)) == HexDigit(c)
  {
    var digits := "0123456789abcdefABCDEF";
    if HexDigit(c).Some? {
      var i := if c <= '9' then c as int - '0' as int
               else if c <= 'F' then c as int - 'A' as int + 16 else c as int - 'a' as int + 10;
      assert digits[i] == c;
    }
  }

  /** A sign may stand in front; the value has to fit 64 bits. */
  lemma SignedSizes(n: nat)
    ensures var value: int := n; ParseInt("-" + Hex(n)) == if n <= 0x8000_0000_0000_0000 then Some(-value) else None
    ensures ParseInt("+" + Hex(n)) == ParseInt(Hex(n)) == if n < 0x8000_0000_0000_0000 then Some(n) else None
  {
    hide Hex; hide HexNumber;
    HexRoundTrip(n);
    HexIsNoSpace(n);
    assert ("-" + Hex(n))[1..] == Hex(n) && ("+" + Hex(n))[1..] == Hex(n);
  }

  lemma DigitRoundTrip(d: nat)
    requires d < 16
    ensures HexDigit("0123456789abcdef"[d]) == Some(d)
  {}

  lemma {:induction false} TrimLeftWord(s: string, t: string)
    requires s != "" && !IsSpace(s[0])
    ensures TrimLeft(s + t) == s + t
  {}

  /** Trimming takes white space from the right only, down to the last character that is none. */
  lemma {:induction false} TrimRightKeeps(s: string, t: string)
    requires s != "" && !IsSpace(s[|s| - 1])
    ensures s <= TrimRight(s + t) <= s + t
  {
    if t == "" {
      assert s + t == s;
    } else {
      assert (s + t)[..|s + t| - 1] == s + t[..|t| - 1];
      TrimRightKeeps(s, t[..|t| - 1]);
    }
  }

  lemma {:induction false} TrimRightBlank(s: string, t: string)
    requires s != "" && !IsSpace(s[|s| - 1]) && forall c | c in t :: IsSpace(c)
    ensures TrimRight(s + t) == s
  {
    if t == "" {
      assert s + t == s;
    } else {
      assert (s + t)[..|s + t| - 1] == s + t[..|t| - 1];
      TrimRightBlank(s, t[..|t| - 1]);
    }
  }

  lemma {:induction false} BeforeSemicolonIs(s: string, t: string)
    requires ';' !in s && (t == "" || t[0] == ';')
    ensures BeforeSemicolon(s + t) == s
  {
    if s == "" {
      assert s + t == t;
    } else {
      assert (s + t)[1..] == s[1..] + t;
      BeforeSemicolonIs(s[1..], t);
    }
  }

  /** A size in hexadecimal and, after a semicolon, extensions; white space may follow. */
  lemma HeaderParses(n: nat, extension: string, blank: string)
    requires n < 0x8000_0000_0000_0000 && (extension == "" || extension[0] == ';')
    requires forall c | c in blank :: IsSpace(c)
    ensures ParseHeader(Hex(n) + extension + blank) == Size(n)
  {
    hide Hex; hide TrimLeft; hide TrimRight; hide BeforeSemicolon; hide HexNumber; hide IsSpace;
    var h := Hex(n);
    HexRoundTrip(n);
    HexIsNoSpace(n);
    var line := h + extension + blank;
    assert line == h + (extension + blank);
    TrimLeftWord(h, extension + blank);
    if extension == "" {
      assert line == h + blank;
      TrimRightBlank(h, blank);
      assert h + "" == h;
      BeforeSemicolonIs(h, "");
    } else {
      assert extension == ";" + extension[1..];
      var kept := h + ";";
      assert line == kept + (extension[1..] + blank);
      SemicolonIsNoSpace();
      TrimRightKeeps(kept, extension[1..] + blank);
      var text := TrimRight(line);
      assert text == h + text[|h|..] && text[|h|] == ';';
      BeforeSemicolonIs(h, text[|h|..]);
    }
    assert h + "" == h;
    TrimLeftWord(h, "");
    TrimRightBlank(h, "");
  }

  lemma SemicolonIsNoSpace()
    ensures !IsSpace(';')
  {}

  lemma HexIsNoSpace(n: nat)
    ensures Hex(n) != "" && ';' !in Hex(n) && '\n' !in Hex(n)
    ensures !IsSpace(Hex(n)[0]) && !IsSpace(Hex(n)[|Hex(n)| - 1])
    ensures Hex(n)[0] != '+' && Hex(n)[0] != '-'
  {
    hide Hex; hide HexNumber;
    HexRoundTrip(n);
    var h := Hex(n);
    assert h[0] in h && h[|h| - 1] in h;
  }

  /** The header of a chunk of n bytes. */
  lemma HeaderRoundTrip(n: nat, extension: string)
    requires n < 0x8000_0000_0000_0000 && (extension == "" || extension[0] == ';')
    ensures ParseHeader(Hex(n) + extension + "\r\n") == Size(n)
    ensures '\n' !in extension ==> '\n' !in Hex(n) + extension
  {
    hide ParseHeader; hide Hex;
    HeaderParses(n, extension, "\r\n");
    HexIsNoSpace(n);
  }

  /** Every nonempty beginning of a number in hexadecimal is a number, and not zero unless the whole number is. */
  lemma {:induction false} HexBeginning(n: nat, k: nat) returns (m: nat)
    requires 0 < k <= |Hex(n)|
    ensures Hex(n)[..k] == Hex(m) && m <= n && (n > 0 ==> m > 0)
  {
    if k == |Hex(n)| {
      m := n;
      assert Hex(n)[..k] == Hex(n);
    } else {
      m := HexBeginning(n / 16, k);
      assert Hex(n)[..k] == Hex(n / 16)[..k];
    }
  }

  // The stream.

  function SkipCRLF(s: string): string {
    if "\r\n" <= s then s[2..] else if "\n" <= s then s[1..] else s
  }

  /** What follows the trailers: the text after the first blank line. */
  function AfterTrailers(s: string): string
    decreases |s|
  {
    var line := FirstLine(s);
    if !Terminated(line) then ""
    else if Trim(line) == "" then s[|line|..]
    else AfterTrailers(s[|line|..])
  }

  datatype ReadError = EOF | UnexpectedEOF | BadHeader | TooLarge | SliceOutOfRange

  datatype Stream = Stream(rest: string, currentChunkRem: int, eof: bool)

  /**
    * A call with a buffer of this size; the underlying stream has one byte and this many more at hand, and reports
    * its end early or late.
    */
  datatype Request = Request(size: nat, more: nat, eager: bool)

  function Min(a: int, b: int): int { if a < b then a else b }

  /** Hands out bytes of the current chunk. */
  function Take(st: Stream, r: Request): (Stream, string, Option<ReadError>) {
    if st.currentChunkRem < 0 then (st, "", Some(SliceOutOfRange))
    else
      var most := Min(r.size, st.currentChunkRem);
      if st.rest == "" && (most > 0 || r.eager) then
        (st, "", Some(if st.currentChunkRem > 0 then UnexpectedEOF else EOF))
      else if most == 0 then (st, "", None)
      else
        var n := Min(1 + r.more, Min(most, |st.rest|));
        var rem := st.currentChunkRem - n;
        var after := if rem == 0 then SkipCRLF(st.rest[n..]) else st.rest[n..];
        (Stream(after, rem, false), st.rest[..n],
         if r.eager && n == |st.rest| then Some(if rem > 0 then UnexpectedEOF else EOF) else None)
  }

  /** One Read: the stream afterwards, the bytes, and the error. */
  function Step(st: Stream, r: Request): (Stream, string, Option<ReadError>)
    decreases |st.rest|
  {
    if st.eof then (st, "", Some(EOF))
    else if st.currentChunkRem != 0 then Take(st, r)
    else if st.rest == "" then (st, "", Some(EOF))
    else
      var line := FirstLine(st.rest);
      var after := st.rest[|line|..];
      match ParseHeader(line)
      case Blank => Step(Stream(after, 0, false), r)
      case Malformed => (Stream(after, 0, false), "", Some(BadHeader))
      case Size(size) =>
        if size > MAX_CHUNK then (Stream(after, 0, false), "", Some(TooLarge))
        else if size == 0 then (Stream(AfterTrailers(after), 0, true), "", Some(EOF))
        else Take(Stream(after, size, false), r)
  }

  /** Reads until the requests or the stream end: the bytes read, and the error that ended it. */
  function Run(st: Stream, requests: seq<Request>): (Stream, string, Option<ReadError>)
    decreases |requests|
  {
    if requests == [] then (st, "", None)
    else
      var (next, bytes, err) := Step(st, requests[0]);
      if err.Some? then (next, bytes, err)
      else
        var (last, more, end) := Run(next, requests[1..]);
        (last, bytes + more, end)
  }

  // Well-formed bodies.

  /** A chunk with its header line. */
  datatype Chunk = Chunk(header: string, data: string)

  predicate WellFormed(chunks: seq<Chunk>) {
    forall c | c in chunks ::
      1 <= |c.data| <= MAX_CHUNK && '\n' !in c.header && ParseHeader(c.header + "\r\n") == Size(|c.data|)
  }

  function Body(chunks: seq<Chunk>): string {
    if chunks == [] then ""
    else chunks[0].header + "\r\n" + chunks[0].data + "\r\n" + Body(chunks[1..])
  }

  function Payload(chunks: seq<Chunk>): string {
    if chunks == [] then "" else chunks[0].data + Payload(chunks[1..])
  }

  /** Reading from here on gives no more bytes: there is nothing, or a chunk of size zero. */
  ghost predicate Ending(tail: string) {
    forall r :: Step(Stream(tail, 0, false), r).1 == "" && Step(Stream(tail, 0, false), r).2 == Some(EOF)
  }

  /** A header of size zero ends the body, whatever follows. */
  lemma LastChunkEnds(header: string, after: string)
    requires '\n' !in header && ParseHeader(header + "\r\n") == Size(0)
    ensures Ending(header + "\r\n" + after)
    ensures forall r :: Step(Stream(header + "\r\n" + after, 0, false), r).0 == Stream(AfterTrailers(after), 0, true)
  {
    hide ParseHeader; hide AfterTrailers; hide FirstLine;
    HeaderLine(header, after);
  }

  lemma HeaderLine(header: string, after: string)
    requires '\n' !in header
    ensures var s := header + "\r\n" + after; var line := FirstLine(s);
            s != "" && line == header + "\r\n" && s[|line|..] == after
  {
    hide FirstLine;
    var line := header + "\r";
    assert header + "\r\n" + after == line + ['\n'] + after;
    FirstLineOfLine(line, after);
    assert line + ['\n'] == header + "\r\n";
  }

  /** Trailer lines and the blank line that ends them are consumed, and nothing after them. */
  lemma {:induction false} TrailersConsumed(trailers: seq<string>, after: string)
    requires forall t | t in trailers :: '\n' !in t && Trim(t + "\r\n") != ""
    ensures AfterTrailers(Lines(trailers) + "\r\n" + after) == after
  {
    hide Trim; hide FirstLine;
    if trailers == [] {
      var s := Lines(trailers) + "\r\n" + after;
      assert s == "" + "\r\n" + after;
      HeaderLine("", after);
      BlankLine();
    } else {
      var rest := Lines(trailers[1..]) + "\r\n" + after;
      assert Lines(trailers) + "\r\n" + after == trailers[0] + "\r\n" + rest;
      HeaderLine(trailers[0], rest);
      TrailersConsumed(trailers[1..], after);
      assert trailers[0] in trailers;
    }
  }

  lemma BlankLine()
    ensures Trim("" + "\r\n") == ""
  {
    assert "" + "\r\n" == "\r\n" && "\r\n"[1..] == "\n" && "\n"[1..] == "";
    assert TrimLeft("\n") == TrimLeft("") == "";
  }

  function Lines(trailers: seq<string>): string {
    if trailers == [] then "" else trailers[0] + "\r\n" + Lines(trailers[1..])
  }

  /** The rest of a chunk's data, if any, before other text. */
  function Ahead(current: string, x: string): string {
    if current == "" then x else current + ("\r\n" + x)
  }

  /** The stream is before the chunks, with these bytes of the current chunk still to come. */
  ghost predicate At(st: Stream, current: string, chunks: seq<Chunk>, tail: string) {
    st == Stream(Ahead(current, Body(chunks) + tail), |current|, false)
  }

  lemma TakeBytes(r: Request, current: string, x: string)
    requires current != ""
    ensures var (next, bytes, err) := Take(Stream(Ahead(current, x), |current|, false), r); var n := |bytes|;
            && err == None && n <= |current| && (r.size > 0 ==> n > 0) && bytes == current[..n]
            && next == Stream(Ahead(current[n..], x), |current| - n, false)
  {
    hide SkipCRLF;
    var rest := current + ("\r\n" + x);
    var most := Min(r.size, |current|);
    if most == 0 {
      assert current[0..] == current;
    } else {
      var n := Min(1 + r.more, Min(most, |rest|));
      assert rest[..n] == current[..n];
      assert rest[n..] == current[n..] + ("\r\n" + x);
      SkipTerminator(current[n..], x);
    }
  }

  lemma SkipTerminator(current: string, x: string)
    ensures current == "" ==> SkipCRLF(current + ("\r\n" + x)) == x
  {
    if current == "" {
      assert current + ("\r\n" + x) == "\r\n" + x;
      assert ("\r\n" + x)[2..] == x;
    }
  }

  lemma OpenChunk(chunks: seq<Chunk>, tail: string, r: Request)
    requires chunks != [] && WellFormed(chunks)
    ensures var inside := Stream(Ahead(chunks[0].data, Body(chunks[1..]) + tail), |chunks[0].data|, false);
            Step(Stream(Body(chunks) + tail, 0, false), r) == Take(inside, r)
  {
    hide ParseHeader; hide FirstLine; hide Take; hide Body;
    var c := chunks[0];
    assert c in chunks;
    BodyOpens(chunks, tail);
    HeaderLine(c.header, Ahead(c.data, Body(chunks[1..]) + tail));
  }

  lemma BodyOpens(chunks: seq<Chunk>, tail: string)
    requires chunks != [] && chunks[0].data != ""
    ensures Body(chunks) + tail == chunks[0].header + "\r\n" + Ahead(chunks[0].data, Body(chunks[1..]) + tail)
  {}

  /** One read from a well-formed body hands out the next bytes of the payload. */
  lemma StepAt(st: Stream, r: Request, current: string, chunks: seq<Chunk>, tail: string)
    returns (current': string, chunks': seq<Chunk>)
    requires At(st, current, chunks, tail) && WellFormed(chunks) && (current != "" || chunks != [])
    ensures var (next, bytes, err) := Step(st, r);
            && err == None && At(next, current', chunks', tail) && WellFormed(chunks')
            && (r.size > 0 ==> bytes != "")
            && bytes + (current' + Payload(chunks')) == current + Payload(chunks)
  {
    hide Take; hide Ahead; hide Body; hide ParseHeader; hide FirstLine;
    var inside, n := current, |Step(st, r).1|;
    chunks' := chunks;
    if current != "" {
      TakeBytes(r, current, Body(chunks) + tail);
    } else {
      OpenChunk(chunks, tail, r);
      assert chunks[0] in chunks;
      AheadOfNothing(Body(chunks) + tail);
      inside, chunks' := chunks[0].data, chunks[1..];
      TakeBytes(r, inside, Body(chunks') + tail);
    }
    current' := inside[n..];
    assert inside + Payload(chunks') == current + Payload(chunks);
    Regroup(inside, n, Payload(chunks'));
  }

  lemma AheadOfNothing(x: string)
    ensures Ahead("", x) == x
  {}

  lemma Regroup(s: string, n: nat, t: string)
    requires n <= |s|
    ensures s[..n] + (s[n..] + t) == s + t
  {}

  lemma NothingLeft(st: Stream, tail: string)
    requires At(st, "", [], tail)
    ensures st == Stream(tail, 0, false)
  {
    assert "" + tail == tail;
  }

  function Nonempty(requests: seq<Request>): nat {
    if requests == [] then 0 else (if requests[0].size > 0 then 1 else 0) + Nonempty(requests[1..])
  }

  /** The requests from k on are answered from what follows the chunks; those before k hand out the payload. */
  ghost predicate Splits(st: Stream, requests: seq<Request>, all: string, tail: string, k: nat) {
    k <= |requests|
    && var (_, bytes, err) := Run(st, requests);
    var (_, more, end) := Run(Stream(tail, 0, false), requests[k..]);
    bytes == all + more && err == end && Nonempty(requests) <= |all| + Nonempty(requests[k..])
  }

  ghost predicate Within(st: Stream, requests: seq<Request>, all: string) {
    Run(st, requests).2 == None && Run(st, requests).1 <= all && Nonempty(requests) <= |all|
  }

  lemma {:induction false} RunAt(st: Stream, requests: seq<Request>, current: string, chunks: seq<Chunk>, tail: string)
    returns (k: nat)
    requires At(st, current, chunks, tail) && WellFormed(chunks)
    ensures Within(st, requests, current + Payload(chunks)) || Splits(st, requests, current + Payload(chunks), tail, k)
    decreases |requests|
  {
    hide Step; hide At; hide WellFormed;
    k := 0;
    if current == "" && chunks == [] {
      NothingLeft(st, tail);
      assert requests[0..] == requests;
    } else if requests != [] {
      var current', chunks' := StepAt(st, requests[0], current, chunks, tail);
      var k' := RunAt(Step(st, requests[0]).0, requests[1..], current', chunks', tail);
      k := k' + 1;
      assert k' <= |requests[1..]| ==> requests[1..][k'..] == requests[k..];
    }
  }

  /** Reading the chunks, then whatever follows them: decoding is compositional. */
  lemma DecodesThen(chunks: seq<Chunk>, tail: string, requests: seq<Request>) returns (k: nat)
    requires WellFormed(chunks)
    ensures var st := Stream(Body(chunks) + tail, 0, false);
            Within(st, requests, Payload(chunks)) || Splits(st, requests, Payload(chunks), tail, k)
  {
    hide Within; hide Splits;
    var st := Stream(Body(chunks) + tail, 0, false);
    assert At(st, "", chunks, tail);
    k := RunAt(st, requests, "", chunks, tail);
    assert "" + Payload(chunks) == Payload(chunks);
  }

  /**
    * Whatever the buffers and however the stream is fragmented, the bytes read from a well-formed body are its
    * payload: a prefix of it while there was no error, all of it at the end, and the end is reached.
    */
  lemma Decodes(chunks: seq<Chunk>, tail: string, requests: seq<Request>)
    requires WellFormed(chunks) && Ending(tail)
    ensures var (_, bytes, err) := Run(Stream(Body(chunks) + tail, 0, false), requests);
            && bytes <= Payload(chunks)
            && (err == None || (err == Some(EOF) && bytes == Payload(chunks)))
            && (Nonempty(requests) > |Payload(chunks)| ==> err == Some(EOF))
  {
    hide Step;
    var k := DecodesThen(chunks, tail, requests);
    if k < |requests| {
      EndingMeans(tail, requests[k]);
      assert requests[k..][0] == requests[k];
    } else if k == |requests| {
      assert requests[k..] == [];
    }
  }

  lemma EndingMeans(tail: string, r: Request)
    requires Ending(tail)
    ensures Step(Stream(tail, 0, false), r).1 == "" && Step(Stream(tail, 0, false), r).2 == Some(EOF)
  {}

  // Truncated bodies.

  /** Reading this text from the start gives these bytes and then this error, whatever the requests. */
  ghost predicate ReadsAs(text: string, payload: string, end: ReadError) {
    forall requests :: RunsAs(Run(Stream(text, 0, false), requests), requests, payload, end)
  }

  ghost predicate RunsAs(run: (Stream, string, Option<ReadError>), requests: seq<Request>, payload: string,
                         end: ReadError) {
    && run.1 <= payload
    && (run.2 == None || (run.2 == Some(end) && run.1 == payload))
    && (Nonempty(requests) > |payload| ==> run.2 == Some(end))
  }

  /** What follows whole chunks decides how the reading ends. */
  lemma ReadsAsAfter(chunks: seq<Chunk>, tail: string, payload: string, end: ReadError)
    requires WellFormed(chunks) && ReadsAs(tail, payload, end)
    ensures ReadsAs(Body(chunks) + tail, Payload(chunks) + payload, end)
  {
    hide Run; hide Body; hide WellFormed;
    forall requests
      ensures RunsAs(Run(Stream(Body(chunks) + tail, 0, false), requests), requests, Payload(chunks) + payload, end)
    {
      var k := DecodesThen(chunks, tail, requests);
      if k <= |requests| {
        assert RunsAs(Run(Stream(tail, 0, false), requests[k..]), requests[k..], payload, end);
      }
    }
  }

  lemma NothingReads()
    ensures ReadsAs("", "", EOF) && ReadsAs("\r", "", EOF)
  {
    CarriageReturnIsBlank();
    forall r: Request
      ensures Step(Stream("", 0, false), r).2 == Some(EOF) && Step(Stream("\r", 0, false), r).2 == Some(EOF)
    {}
  }

  lemma CarriageReturnIsBlank()
    ensures FirstLine("\r") == "\r" && ParseHeader("\r") == Blank
  {
    assert "\r"[1..] == "";
    assert TrimLeft("\r") == TrimLeft("") == "";
  }

  lemma StepPartial(rest: string, rem: nat, r: Request)
    requires |rest| < rem
    ensures var (next, bytes, err) := Step(Stream(rest, rem, false), r); var n := |bytes|;
            && bytes <= rest
            && (err == None || (err == Some(UnexpectedEOF) && bytes == rest))
            && (err == None ==> next == Stream(rest[n..], rem - n, false) && (r.size > 0 ==> n > 0))
  {
    hide SkipCRLF;
    assert Step(Stream(rest, rem, false), r) == Take(Stream(rest, rem, false), r);
  }

  /** Fewer bytes than the chunk should have. */
  lemma {:induction false} RunPartial(rest: string, rem: nat, requests: seq<Request>)
    requires |rest| < rem
    ensures RunsAs(Run(Stream(rest, rem, false), requests), requests, rest, UnexpectedEOF)
    decreases |requests|
  {
    hide Step;
    if requests != [] {
      var (next, bytes, err) := Step(Stream(rest, rem, false), requests[0]);
      StepPartial(rest, rem, requests[0]);
      if err == None {
        RunPartial(rest[|bytes|..], rem - |bytes|, requests[1..]);
        assert rest == bytes + rest[|bytes|..];
      }
    }
  }

  lemma StepWhole(rest: string, x: string, r: Request)
    requires rest != "" && (x == "" || x == "\r")
    ensures var (next, bytes, err) := Step(Stream(rest + x, |rest|, false), r); var n := |bytes|;
            && bytes <= rest
            && (err == None || (err == Some(EOF) && bytes == rest))
            && (err == None ==> next == Stream(rest[n..] + x, |rest| - n, false) && (r.size > 0 ==> n > 0))
  {
    hide SkipCRLF;
    StepOfTake(Stream(rest + x, |rest|, false), r);
    SkipsNothing();
    var most := Min(r.size, |rest|);
    var n := if most == 0 then 0 else Min(1 + r.more, Min(most, |rest + x|));
    assert n <= |rest| && (rest + x)[n..] == rest[n..] + x && (rest + x)[..n] == rest[..n];
    if n == |rest| {
      assert rest[n..] + x == x && rest[..n] == rest;
    } else {
      assert n < |rest + x|;
    }
  }

  lemma SkipsNothing()
    ensures SkipCRLF("") == "" && SkipCRLF("\r") == "\r"
  {
    assert |"\r\n"| == 2 && "\r"[0] != "\n"[0];
  }

  /** All bytes of the chunk, but not the end of its line. */
  lemma {:induction false} RunWhole(rest: string, x: string, requests: seq<Request>)
    requires x == "" || x == "\r"
    ensures RunsAs(Run(Stream(rest + x, |rest|, false), requests), requests, rest, EOF)
    decreases |requests|
  {
    hide Step; hide ReadsAs;
    if rest == "" {
      NothingReads();
      assert rest + x == x;
      ReadsAsMeans(x, "", EOF, requests);
    } else if requests != [] {
      var (next, bytes, err) := Step(Stream(rest + x, |rest|, false), requests[0]);
      StepWhole(rest, x, requests[0]);
      if err == None {
        RunWhole(rest[|bytes|..], x, requests[1..]);
        assert rest == bytes + rest[|bytes|..];
      }
    }
  }

  lemma ReadsAsMeans(text: string, payload: string, end: ReadError, requests: seq<Request>)
    requires ReadsAs(text, payload, end)
    ensures RunsAs(Run(Stream(text, 0, false), requests), requests, payload, end)
  {}

  /** The end of a body that is cut off inside the header line, where the beginning of the line reads as a header. */
  function HeaderCut(beginning: string): ReadError {
    match ParseHeader(beginning)
    case Blank => EOF
    case Malformed => BadHeader
    case Size(n) =>
      if n > MAX_CHUNK then TooLarge else if n == 0 then EOF else if n < 0 then SliceOutOfRange else UnexpectedEOF
  }

  lemma OpenCut(beginning: string, r: Request)
    requires beginning != "" && '\n' !in beginning
    ensures Step(Stream(beginning, 0, false), r) ==
      match ParseHeader(beginning)
      case Blank => (Stream("", 0, false), "", Some(EOF))
      case Malformed => (Stream("", 0, false), "", Some(BadHeader))
      case Size(n) =>
        if n > MAX_CHUNK then (Stream("", 0, false), "", Some(TooLarge))
        else if n == 0 then (Stream("", 0, true), "", Some(EOF))
        else Take(Stream("", n, false), r)
  {
    hide ParseHeader; hide FirstLine; hide Take;
    FirstLineOfLine(beginning, "");
    assert beginning[|beginning|..] == "";
    NothingAfter();
  }

  lemma NothingAfter()
    ensures AfterTrailers("") == ""
  {}

  /** Cut off inside the header line. */
  lemma CutInHeader(beginning: string)
    requires beginning != "" && '\n' !in beginning
    ensures ReadsAs(beginning, "", HeaderCut(beginning))
  {
    hide ParseHeader; hide Step;
    forall requests
      ensures RunsAs(Run(Stream(beginning, 0, false), requests), requests, "", HeaderCut(beginning))
    {
      if requests != [] {
        OpenCut(beginning, requests[0]);
        match ParseHeader(beginning)
        case Size(n) =>
          if 0 < n <= MAX_CHUNK {
            RunPartial("", n, requests);
            assert Step(Stream("", n, false), requests[0]) == Take(Stream("", n, false), requests[0]) by {
              StepOfTake(Stream("", n, false), requests[0]);
            }
          }
        case _ =>
      }
    }
  }

  lemma StepOfTake(st: Stream, r: Request)
    requires !st.eof && st.currentChunkRem != 0
    ensures Step(st, r) == Take(st, r)
  {}

  /** Cut off after the header line and k bytes of data, or within the line end behind all of them. */
  lemma CutInData(c: Chunk, k: nat)
    requires WellFormed([c]) && k < |c.data| + 2
    ensures var text := c.header + "\r\n" + (c.data + "\r\n")[..k];
            if k < |c.data| then ReadsAs(text, c.data[..k], UnexpectedEOF) else ReadsAs(text, c.data, EOF)
  {
    hide ParseHeader; hide Step; hide Run;
    var part := (c.data + "\r\n")[..k];
    assert c in [c];
    forall requests
      ensures var run := Run(Stream(c.header + "\r\n" + part, 0, false), requests);
              if k < |c.data| then RunsAs(run, requests, c.data[..k], UnexpectedEOF)
              else RunsAs(run, requests, c.data, EOF)
    {
      OpenRun(c.header, |c.data|, part, requests);
      if k < |c.data| {
        assert part == c.data[..k];
        RunPartial(part, |c.data|, requests);
      } else {
        var x := if k == |c.data| then "" else "\r";
        assert part == c.data + x;
        RunWhole(c.data, x, requests);
      }
    }
  }

  lemma OpenRun(header: string, size: nat, part: string, requests: seq<Request>)
    requires '\n' !in header && ParseHeader(header + "\r\n") == Size(size) && 0 < size <= MAX_CHUNK
    ensures var whole := Run(Stream(header + "\r\n" + part, 0, false), requests);
            var inside := Run(Stream(part, size, false), requests);
            whole.1 == inside.1 && whole.2 == inside.2
  {
    hide Step; hide ParseHeader;
    if requests != [] { OpenPartial(header, size, part, requests[0]); }
  }

  lemma OpenPartial(header: string, size: nat, part: string, r: Request)
    requires '\n' !in header && ParseHeader(header + "\r\n") == Size(size) && 0 < size <= MAX_CHUNK
    ensures Step(Stream(header + "\r\n" + part, 0, false), r) == Step(Stream(part, size, false), r)
  {
    hide ParseHeader; hide FirstLine; hide Take;
    HeaderLine(header, part);
  }

  function ChunkText(c: Chunk): string { c.header + "\r\n" + c.data + "\r\n" }

  /** How reading a chunk ends that is cut off after k characters. */
  function CutEnd(c: Chunk, k: nat): ReadError
    requires k <= |ChunkText(c)|
  {
    var h := |c.header| + 2;
    if k == 0 then EOF
    else if k < h then HeaderCut(ChunkText(c)[..k])
    else if k < h + |c.data| then UnexpectedEOF
    else EOF
  }

  /** The bytes that reading it gives. */
  function CutPayload(c: Chunk, k: nat): string {
    var h := |c.header| + 2;
    if k < h then "" else if k < h + |c.data| then c.data[..k - h] else c.data
  }

  lemma CutChunk(c: Chunk, k: nat)
    requires WellFormed([c]) && k < |ChunkText(c)|
    ensures ReadsAs(ChunkText(c)[..k], CutPayload(c, k), CutEnd(c, k))
  {
    hide ReadsAs; hide HeaderCut;
    assert c in [c];
    var h := |c.header| + 2;
    var text := ChunkText(c);
    if k == 0 {
      assert text[..0] == "";
      NothingReads();
    } else if k < h {
      assert text[..k] == (c.header + "\r\n")[..k];
      CutInHeader(text[..k]);
    } else {
      assert text == c.header + "\r\n" + (c.data + "\r\n");
      assert text[..k] == c.header + "\r\n" + (c.data + "\r\n")[..k - h];
      CutInData(c, k - h);
    }
  }

  /** A header line of the size in hexadecimal and extensions. */
  ghost predicate Canonical(header: string, n: nat) {
    n <= MAX_CHUNK && exists extension | IsExtension(extension) :: header == Hex(n) + extension
  }

  ghost predicate IsExtension(extension: string) {
    '\n' !in extension && (extension == "" || extension[0] == ';')
  }

  /** The beginning of a header line is never taken for the last chunk, unless it begins the last chunk. */
  lemma CanonicalHeaderCut(n: nat, header: string, k: nat)
    requires Canonical(header, n) && 0 < k < |header| + 2
    ensures var beginning := (header + "\r\n")[..k];
            '\n' !in beginning && HeaderCut(beginning) == if n == 0 then EOF else UnexpectedEOF
  {
    hide ParseHeader; hide Hex;
    var extension :| IsExtension(extension) && header == Hex(n) + extension;
    HexIsNoSpace(n);
    var h := |Hex(n)|;
    var beginning := (header + "\r\n")[..k];
    if k <= h {
      var m := HexBeginning(n, k);
      HeaderParses(m, "", "");
      assert beginning == Hex(n)[..k] == Hex(m) + "" + "";
    } else if k <= |header| {
      HeaderParses(n, extension[..k - h], "");
      assert beginning == Hex(n) + extension[..k - h] + "";
    } else {
      HeaderParses(n, extension, "\r");
      assert beginning == Hex(n) + extension + "\r";
    }
  }

  lemma CanonicalIsWellFormed(c: Chunk)
    requires Canonical(c.header, |c.data|) && c.data != ""
    ensures WellFormed([c])
  {
    hide ParseHeader; hide Hex;
    var extension :| IsExtension(extension) && c.header == Hex(|c.data|) + extension;
    HeaderRoundTrip(|c.data|, extension);
  }

  /** Strictly inside a chunk: behind the first byte of its header line and before the last byte of its data. */
  predicate InsideChunk(chunks: seq<Chunk>, n: nat) {
    if chunks == [] then false
    else
      var text := |ChunkText(chunks[0])|;
      if n < text then 0 < n < text - 2 else InsideChunk(chunks[1..], n - text)
  }

  lemma EndingReads(tail: string)
    requires Ending(tail)
    ensures ReadsAs(tail, "", EOF)
  {
    hide Step;
    forall requests ensures RunsAs(Run(Stream(tail, 0, false), requests), requests, "", EOF) {
      if requests != [] { EndingMeans(tail, requests[0]); }
    }
  }

  lemma CutLastChunk(last: string, tail: string, n: nat)
    requires Canonical(last, 0) && n <= |last + "\r\n" + tail|
    ensures ReadsAs((last + "\r\n" + tail)[..n], "", EOF)
  {
    hide ReadsAs; hide HeaderCut; hide Hex; hide ParseHeader; hide Ending;
    var text := last + "\r\n" + tail;
    if n == 0 {
      assert text[..0] == "";
      NothingReads();
    } else if n < |last| + 2 {
      assert text[..n] == (last + "\r\n")[..n];
      CanonicalHeaderCut(0, last, n);
      CutInHeader(text[..n]);
    } else {
      var extension :| IsExtension(extension) && last == Hex(0) + extension;
      HeaderRoundTrip(0, extension);
      HexIsNoSpace(0);
      assert text[..n] == last + "\r\n" + tail[..n - |last| - 2];
      LastChunkEnds(last, tail[..n - |last| - 2]);
      EndingReads(text[..n]);
    }
  }

  /**
    * A body cut off anywhere: the reader notices exactly when the cut is strictly inside a chunk; elsewhere it takes
    * what was read so far for the whole body.
    */
  lemma {:induction false} CutIsNoticedIff(chunks: seq<Chunk>, last: string, tail: string, n: nat)
    returns (payload: string)
    requires forall c | c in chunks :: Canonical(c.header, |c.data|) && c.data != ""
    requires Canonical(last, 0) && n <= |Body(chunks) + (last + "\r\n" + tail)|
    ensures ReadsAs((Body(chunks) + (last + "\r\n" + tail))[..n], payload,
                    if InsideChunk(chunks, n) then UnexpectedEOF else EOF)
    ensures payload <= Payload(chunks) && (n >= |Body(chunks)| ==> payload == Payload(chunks))
    decreases |chunks|
  {
    hide ReadsAs; hide HeaderCut; hide Canonical; hide WellFormed;
    var ending := last + "\r\n" + tail;
    if chunks == [] {
      payload := "";
      assert Body(chunks) + ending == ending;
      CutLastChunk(last, tail, n);
    } else {
      var c := chunks[0];
      assert c in chunks;
      CanonicalIsWellFormed(c);
      var text, rest := ChunkText(c), Body(chunks[1..]) + ending;
      assert Body(chunks) + ending == text + rest;
      if n < |text| {
        assert (text + rest)[..n] == text[..n];
        CutChunk(c, n);
        CanonicalCutEnd(c, n);
        payload := CutPayload(c, n);
      } else {
        var more := CutIsNoticedIff(chunks[1..], last, tail, n - |text|);
        assert (text + rest)[..n] == text + rest[..n - |text|];
        BodyOfOne(c);
        var end := if InsideChunk(chunks[1..], n - |text|) then UnexpectedEOF else EOF;
        ReadsAsAfter([c], rest[..n - |text|], more, end);
        payload := c.data + more;
      }
    }
  }

  lemma BodyOfOne(c: Chunk)
    ensures Body([c]) == ChunkText(c) && Payload([c]) == c.data
  {
    assert Body([]) == "" && Payload([]) == "";
  }

  lemma CanonicalCutEnd(c: Chunk, k: nat)
    requires Canonical(c.header, |c.data|) && c.data != "" && k < |ChunkText(c)|
    ensures CutEnd(c, k) == if 0 < k < |ChunkText(c)| - 2 then UnexpectedEOF else EOF
  {
    hide HeaderCut; hide Canonical;
    if 0 < k < |c.header| + 2 {
      CanonicalHeaderCut(|c.data|, c.header, k);
      assert ChunkText(c)[..k] == (c.header + "\r\n")[..k];
    }
  }

  /** A text reads in one way only. */
  lemma ReadsAsOnce(text: string, p: string, a: ReadError, q: string, b: ReadError)
    requires ReadsAs(text, p, a) && ReadsAs(text, q, b)
    ensures p == q && a == b
  {
    hide Run; hide ReadsAs;
    var requests := seq(|p| + |q| + 1, _ => Request(1, 0, false));
    AllNonempty(requests);
    ReadsAsMeans(text, p, a, requests);
    ReadsAsMeans(text, q, b, requests);
  }

  lemma {:induction false} AllNonempty(requests: seq<Request>)
    requires forall r | r in requests :: r.size > 0
    ensures Nonempty(requests) == |requests|
  {
    if requests != [] { AllNonempty(requests[1..]); }
  }

  /** For header lines of any form, a chunk that is cut off reads as complete exactly in these places. */
  lemma CutWithinIff(c: Chunk, k: nat, payload: string)
    requires WellFormed([c]) && k < |ChunkText(c)|
    ensures ReadsAs(ChunkText(c)[..k], payload, EOF) <==>
            && payload == CutPayload(c, k)
            && (|| k == 0 || k >= |c.header| + 2 + |c.data|
                || (k < |c.header| + 2 && ParseHeader(ChunkText(c)[..k]) in {Blank, Size(0)}))
  {
    hide ParseHeader; hide ReadsAs;
    assert c in [c];
    CutChunk(c, k);
    if ReadsAs(ChunkText(c)[..k], payload, EOF) {
      ReadsAsOnce(ChunkText(c)[..k], payload, EOF, CutPayload(c, k), CutEnd(c, k));
    }
  }

  // A negative size.

  /** The first header line that is not blank. */
  function FirstHeader(rest: string): Header
    decreases |rest|
  {
    if rest == "" then Blank
    else
      var line := FirstLine(rest);
      match ParseHeader(line)
      case Blank => FirstHeader(rest[|line|..])
      case h => h
  }

  /** A read slices out of range exactly when a negative chunk size is in effect or comes next. */
  lemma {:induction false} OutOfRangeIff(st: Stream, r: Request)
    ensures Step(st, r).2 == Some(SliceOutOfRange) <==>
            !st.eof && (st.currentChunkRem < 0
              || (st.currentChunkRem == 0 && FirstHeader(st.rest).Size? && FirstHeader(st.rest).n < 0))
    decreases |st.rest|
  {
    hide ParseHeader; hide AfterTrailers; hide SkipCRLF;
    if !st.eof && st.currentChunkRem == 0 && st.rest != "" {
      var line := FirstLine(st.rest);
      if ParseHeader(line) == Blank { OutOfRangeIff(Stream(st.rest[|line|..], 0, false), r); }
    }
  }

  /** A read reports a bad or an oversized header exactly when the next header line that is not blank is one. */
  lemma {:induction false} BadHeaderIff(st: Stream, r: Request)
    ensures var next := FirstHeader(st.rest); var err := Step(st, r).2; var opens := !st.eof && st.currentChunkRem == 0;
            && (err == Some(BadHeader) <==> opens && next == Malformed)
            && (err == Some(TooLarge) <==> opens && next.Size? && next.n > MAX_CHUNK)
    decreases |st.rest|
  {
    hide ParseHeader; hide AfterTrailers; hide SkipCRLF;
    if !st.eof && st.currentChunkRem == 0 && st.rest != "" {
      var line := FirstLine(st.rest);
      if ParseHeader(line) == Blank { BadHeaderIff(Stream(st.rest[|line|..], 0, false), r); }
    }
  }

  class AWSChunkedReader {
    var rest: string
    var currentChunkRem: int
    var eof: bool

    constructor (body: string)
      ensures State() == Stream(body, 0, false)
    {
      rest, currentChunkRem, eof := body, 0, false;
    }

    ghost function State(): Stream
      reads this
    {
      Stream(rest, currentChunkRem, eof)
    }

    /** Reads up to and including the next line feed, or else all there is. */
    method ReadString() returns (line: string, atEnd: bool)
      modifies this`rest
      ensures line == FirstLine(old(rest)) && rest == old(rest)[|line|..]
      ensures atEnd <==> !Terminated(line)
    {
      hide FirstLine;
      var n := 0;
      while n < |rest| && rest[n] != '\n'
        invariant 0 <= n <= |rest| && forall i | 0 <= i < n :: rest[i] != '\n'
      {
        n := n + 1;
      }
      atEnd := n == |rest|;
      if atEnd {
        FirstLineOfLine(rest, "");
      } else {
        FirstLineOfLine(rest[..n], rest[n + 1..]);
        assert rest == rest[..n] + ['\n'] + rest[n + 1..];
        n := n + 1;
        assert rest[..n] == rest[..n - 1] + ['\n'];
      }
      line, rest := rest[..n], rest[n..];
    }

    method ConsumeCRLF()
      modifies this`rest
      ensures rest == SkipCRLF(old(rest))
    {
      if |rest| >= 2 && rest[..2] == "\r\n" {
        rest := rest[2..];
      } else if |rest| >= 1 && rest[..1] == "\n" {
        rest := rest[1..];
      }
    }

    method ConsumeTrailers()
      modifies this`rest
      ensures rest == AfterTrailers(old(rest))
    {
      hide Trim; hide FirstLine;
      var done := false;
      while !done
        invariant AfterTrailers(old(rest)) == if done then rest else AfterTrailers(rest)
        decreases !done, |rest|
      {
        FirstLineEnd(rest);
        var line, atEnd := ReadString();
        done := atEnd || Trim(line) == "";
      }
    }

    method Read(r: Request) returns (bytes: string, err: Option<ReadError>)
      modifies this
      ensures (State(), bytes, err) == Step(old(State()), r)
      decreases |rest|
    {
      hide ParseHeader; hide FirstLine; hide AfterTrailers; hide SkipCRLF;
      if eof { return "", Some(EOF); }
      if currentChunkRem == 0 {
        if rest == "" { return "", Some(EOF); }
        var line, _ := ReadString();
        match ParseHeader(line) {
          case Blank =>
            bytes, err := Read(r);
            return;
          case Malformed => return "", Some(BadHeader);
          case Size(chunkSize) =>
            if chunkSize > MAX_CHUNK { return "", Some(TooLarge); }
            if chunkSize == 0 {
              eof := true;
              ConsumeTrailers();
              return "", Some(EOF);
            }
            currentChunkRem := chunkSize;
        }
      }
      bytes, err := ReadData(r);
    }

    method ReadData(r: Request) returns (bytes: string, err: Option<ReadError>)
      requires !eof
      modifies this
      ensures (State(), bytes, err) == Take(old(State()), r)
    {
      hide SkipCRLF;
      var toRead := Min(r.size, currentChunkRem);
      if toRead < 0 { return "", Some(SliceOutOfRange); }
      var n := Min(Min(toRead, 1 + r.more), |rest|);
      var ended := (r.eager && n == |rest|) || (rest == "" && toRead > 0);
      bytes := rest[..n];
      rest := rest[n..];
      if n > 0 {
        currentChunkRem := currentChunkRem - n;
        if currentChunkRem == 0 { ConsumeCRLF(); }
      }
      err := if !ended then None else if currentChunkRem > 0 then Some(UnexpectedEOF) else Some(EOF);
    }
  }
}
