/**
 * The chunked body of the HTTP server, and a decoder that follows section 7.1 of RFC 9112:
 * sizes in either case, chunk extensions ignored, trailer fields discarded.
 */
module ChunkedEncoding {
  import opened Basics

  const CRLF := "\r\n"
  const CHUNK_SIZE: nat := 1024

  // ---- hexadecimal numbers ----

  function HexDigit(d: nat): (c: char)
    requires d < 16
    ensures IsHex(c) && HexValue(c) == d && c != '\r'
  {
    if d < 10 then '0' + d as char else 'a' + (d - 10) as char
  }

  predicate IsHex(c: char) {
    '0' <= c <= '9' || 'a' <= c <= 'f' || 'A' <= c <= 'F'
  }

  function HexValue(c: char): nat
    requires IsHex(c)
  {
    if c <= '9' then (c - '0') as nat
    else if c <= 'F' then (c - 'A') as nat + 10
    else (c - 'a') as nat + 10
  }

  /** What "%x" prints. */
  function Hex(n: nat): (s: string)
    ensures |s| > 0 && forall i :: 0 <= i < |s| ==> IsHex(s[i])
  {
    if n < 16 then [HexDigit(n)] else Hex(n / 16) + [HexDigit(n % 16)]
  }

  function HexNumber(s: string): nat
    requires forall i :: 0 <= i < |s| ==> IsHex(s[i])
  {
    if s == "" then 0 else 16 * HexNumber(s[..|s| - 1]) + HexValue(s[|s| - 1])
  }

  lemma {:induction false} HexRoundTrip(n: nat)
    ensures HexNumber(Hex(n)) == n
  {
    if n >= 16 {
      HexRoundTrip(n / 16);
      assert Hex(n)[..|Hex(n)| - 1] == Hex(n / 16);
    } else {
      assert Hex(n)[..0] == "";
    }
  }

  lemma DigitIs(d: nat)
    requires d < 16
    ensures HexDigit(d) == "0123456789abcdef"[d]
  {
  }

  /** "%x" prints the digits from the most significant one down ... */
  lemma HexUnfolds(n: nat)
    ensures n < 16 ==> Hex(n) == ["0123456789abcdef"[n]]
    ensures n >= 16 ==> Hex(n) == Hex(n / 16) + ["0123456789abcdef"[n % 16]]
  {
    DigitIs(n % 16);
  }

  /** ... with lower-case letters and no leading zero. */
  lemma {:induction false} HexDigits(n: nat)
    ensures forall i :: 0 <= i < |Hex(n)| ==> '0' <= Hex(n)[i] <= '9' || 'a' <= Hex(n)[i] <= 'f'
    ensures n > 0 ==> Hex(n)[0] != '0'
  {
    if n >= 16 {
      HexDigits(n / 16);
    }
  }

  /** How many hexadecimal digits a string starts with. */
  function HexPrefix(s: string): (k: nat)
    ensures k <= |s| && (forall i :: 0 <= i < k ==> IsHex(s[i])) && (k < |s| ==> !IsHex(s[k]))
  {
    if s == "" || !IsHex(s[0]) then 0 else 1 + HexPrefix(s[1..])
  }

  // ---- the decoder ----

  /** Splits off the first line. */
  function ReadLine(s: string): (r: Option<(string, string)>)
    ensures r.Some? ==> s == r.value.0 + CRLF + r.value.1
  {
    if |s| < 2 then None
    else if s[..2] == CRLF then Some(("", s[2..]))
    else
      match ReadLine(s[1..])
      case None => None
      case Some((line, rest)) => Some(([s[0]] + line, rest))
  }

  /** The size at the start of a chunk header, which a chunk extension may follow. */
  function ParseSize(line: string): Option<nat> {
    var k := HexPrefix(line);
    if k == 0 || (k < |line| && line[k] !in ";\t ") then None
    else Some(HexNumber(line[..k]))
  }

  /** Discards trailer fields up to the empty line. */
  function SkipTrailers(s: string): Option<string>
    decreases |s|
  {
    match ReadLine(s)
    case None => None
    case Some((line, rest)) => if line == "" then Some(rest) else SkipTrailers(rest)
  }

  /** The size of the first chunk, and what follows its header. */
  function ReadSize(s: string): Option<(nat, string)> {
    match ReadLine(s)
    case None => None
    case Some((line, rest)) =>
      match ParseSize(line)
      case None => None
      case Some(n) => Some((n, rest))
  }

  predicate DataEnds(s: string, n: nat) {
    |s| >= n + 2 && s[n..n + 2] == CRLF
  }

  /** The decoded body and what follows it; None while incomplete or when malformed. */
  function Decode(s: string): Option<(string, string)>
    decreases |s|
  {
    match ReadSize(s)
    case None => None
    case Some((n, rest)) =>
      if n == 0 then
        match SkipTrailers(rest)
        case None => None
        case Some(after) => Some(("", after))
      else if !DataEnds(rest, n) then None
      else
        match Decode(rest[n + 2..])
        case None => None
        case Some((body, after)) => Some((rest[..n] + body, after))
  }

  // ---- the encoder ----

  function Chunk(data: string): string {
    Hex(|data|) + CRLF + data + CRLF
  }

  function Chunks(body: string): seq<string>
    decreases |body|
  {
    if body == "" then []
    else [body[..Min(CHUNK_SIZE, |body|)]] + Chunks(body[Min(CHUNK_SIZE, |body|)..])
  }

  function Frame(chunks: seq<string>): string {
    if chunks == [] then Hex(0) + CRLF + CRLF else Chunk(chunks[0]) + Frame(chunks[1..])
  }

  function Frames(chunks: seq<string>): string {
    if chunks == [] then "" else Frames(chunks[..|chunks| - 1]) + Chunk(chunks[|chunks| - 1])
  }

  function Concat(chunks: seq<string>): string {
    if chunks == [] then "" else chunks[0] + Concat(chunks[1..])
  }

  lemma {:induction false} FramesThenFrame(a: seq<string>, b: seq<string>)
    ensures Frame(a + b) == Frames(a) + Frame(b)
    decreases |a|
  {
    if a == [] {
      assert a + b == b;
    } else {
      var n := |a| - 1;
      assert a[..n] + ([a[n]] + b) == a + b;
      assert ([a[n]] + b)[1..] == b;
      FramesThenFrame(a[..n], [a[n]] + b);
    }
  }

  /** The bytes sent for a body. */
  ghost predicate Spelled(body: string, sent: string) {
    if body == "" then sent == "0\r\n\r\n"
    else if |body| <= 1024 then sent == Hex(|body|) + "\r\n" + body + "\r\n0\r\n\r\n"
    else sent == "400\r\n" + body[..1024] + "\r\n" + Frame(Chunks(body[1024..]))
  }

  /** What the server sends for a body, chunk by chunk. */
  method SendChunked(body: string) returns (sent: string)
    ensures sent == Frame(Chunks(body))
    ensures Spelled(body, sent)
    ensures Decode(sent) == Some((body, ""))
  {
    sent := "";
    var i := 0;
    ghost var chunks: seq<string> := [];
    while i < |body|
      invariant i >= 0 && sent == Frames(chunks)
      invariant Chunks(body) == chunks + Chunks(if i <= |body| then body[i..] else "")
      decreases |body| - i
    {
      var chunk;
      if i + CHUNK_SIZE <= |body| {
        chunk := body[i..i + CHUNK_SIZE];
      } else {
        chunk := body[i..];
      }
      NextChunk(body, i, chunks, chunk);
      i := i + CHUNK_SIZE;
      sent := sent + (Hex(|chunk|) + CRLF + chunk + CRLF);
      chunks := chunks + [chunk];
      assert chunks[..|chunks| - 1] + [chunk] == chunks;
    }
    AllSent(body, chunks, sent);
    sent := sent + (Hex(0) + CRLF + CRLF);
  }

  lemma AllSent(body: string, chunks: seq<string>, sent: string)
    requires Chunks(body) == chunks + Chunks("") && sent == Frames(chunks)
    ensures var all := sent + (Hex(0) + CRLF + CRLF);
            all == Frame(Chunks(body)) && Spelled(body, all) && Decode(all) == Some((body, ""))
  {
    FramesThenFrame(chunks, []);
    assert chunks + [] == chunks;
    FrameSpelled(body);
    RoundTrip(body, "");
    assert Frame(Chunks(body)) + "" == Frame(Chunks(body));
  }

  lemma LastChunk(a: string)
    ensures a + "\r\n" + Frame([]) == a + "\r\n0\r\n\r\n"
  {
  }

  lemma OneChunk(body: string)
    requires 0 < |body| <= 1024
    ensures Chunks(body) == [body]
  {
    assert body[..|body|] == body && body[|body|..] == "";
  }

  lemma FrameOfOne(chunk: string)
    ensures Frame([chunk]) == Hex(|chunk|) + "\r\n" + chunk + "\r\n" + Frame([])
  {
    assert [chunk][1..] == [];
  }

  lemma ShortBody(body: string)
    requires 0 < |body| <= 1024
    ensures Frame(Chunks(body)) == Hex(|body|) + "\r\n" + body + "\r\n0\r\n\r\n"
  {
    OneChunk(body);
    FrameOfOne(body);
    LastChunk(Hex(|body|) + "\r\n" + body);
  }

  lemma HexOf1024()
    ensures Hex(1024) + "\r\n" == "400\r\n"
  {
    assert Hex(64) == "40";
  }

  lemma FrameSpelled(body: string)
    ensures Spelled(body, Frame(Chunks(body)))
  {
    if 0 < |body| <= 1024 {
      ShortBody(body);
    } else if |body| > 1024 {
      HexOf1024();
    }
  }

  lemma NextChunk(body: string, i: nat, chunks: seq<string>, chunk: string)
    requires i < |body| && Chunks(body) == chunks + Chunks(body[i..])
    requires chunk == if i + CHUNK_SIZE <= |body| then body[i..i + CHUNK_SIZE] else body[i..]
    ensures var i' := i + CHUNK_SIZE;
            Chunks(body) == (chunks + [chunk]) + Chunks(if i' <= |body| then body[i'..] else "")
  {
    var rest := body[i..];
    var n := Min(CHUNK_SIZE, |rest|);
    assert rest[..n] == chunk;
    assert rest[n..] == if i + CHUNK_SIZE <= |body| then body[i + CHUNK_SIZE..] else "";
    assert chunks + ([chunk] + Chunks(rest[n..])) == (chunks + [chunk]) + Chunks(rest[n..]);
  }

  /** The chunks are the body, in order; none is empty, which would end the message early. */
  lemma {:induction false} ChunksOfBody(body: string)
    ensures Concat(Chunks(body)) == body
    ensures forall i :: 0 <= i < |Chunks(body)| ==> 0 < |Chunks(body)[i]| <= CHUNK_SIZE
    ensures forall i :: 0 <= i < |Chunks(body)| - 1 ==> |Chunks(body)[i]| == CHUNK_SIZE
    ensures |Chunks(body)| == (|body| + CHUNK_SIZE - 1) / CHUNK_SIZE
    decreases |body|
  {
    if body != "" {
      var n := Min(CHUNK_SIZE, |body|);
      ChunksOfBody(body[n..]);
      assert body == body[..n] + body[n..];
      if |body| <= CHUNK_SIZE {
        assert body[n..] == "";
      }
    }
  }

  // ---- decoding ----

  lemma {:induction false} ReadLineOf(line: string, rest: string)
    requires '\r' !in line
    ensures ReadLine(line + "\r\n" + rest) == Some((line, rest))
  {
    var s := line + CRLF + rest;
    if line != "" {
      assert s[..2][0] == line[0] && CRLF[0] == '\r';
      assert [line[0]] + line[1..] == line;
      assert s[1..] == line[1..] + CRLF + rest;
      ReadLineOf(line[1..], rest);
    } else {
      assert s[..2] == CRLF && s[2..] == rest;
    }
  }

  lemma SizeLine(n: nat, rest: string)
    ensures ReadSize(Hex(n) + CRLF + rest) == Some((n, rest))
  {
    ReadLineOf(Hex(n), rest);
    assert Hex(n)[..HexPrefix(Hex(n))] == Hex(n);
    HexRoundTrip(n);
  }

  lemma DecodeChunk(data: string, rest: string)
    requires data != ""
    ensures Decode(Chunk(data) + rest) ==
            match Decode(rest) { case None => None case Some((body, after)) => Some((data + body, after)) }
  {
    var tail := data + CRLF + rest;
    assert Chunk(data) + rest == Hex(|data|) + CRLF + tail;
    SizeLine(|data|, tail);
    assert tail[..|data|] == data && tail[|data|..|data| + 2] == CRLF && tail[|data| + 2..] == rest;
  }

  lemma DecodeLastChunk(rest: string)
    ensures Decode(Hex(0) + CRLF + CRLF + rest) == Some(("", rest))
  {
    assert Hex(0) + CRLF + CRLF + rest == Hex(0) + CRLF + (CRLF + rest);
    SizeLine(0, CRLF + rest);
    ReadLineOf("", rest);
    assert "" + CRLF + rest == CRLF + rest;
  }

  lemma Regroup(a: string, b: string, c: string)
    ensures (a + b) + c == a + (b + c)
  {
  }

  lemma {:induction false} DecodeFrame(chunks: seq<string>, rest: string)
    requires forall i :: 0 <= i < |chunks| ==> chunks[i] != ""
    ensures Decode(Frame(chunks) + rest) == Some((Concat(chunks), rest))
    decreases |chunks|
  {
    if chunks == [] {
      DecodeLastChunk(rest);
    } else {
      var tail := Frame(chunks[1..]) + rest;
      DecodeFrame(chunks[1..], rest);
      DecodeChunk(chunks[0], tail);
      Regroup(Chunk(chunks[0]), Frame(chunks[1..]), rest);
    }
  }

  /** A receiver gets exactly the body back, and exactly what follows the message is left. */
  lemma RoundTrip(body: string, rest: string)
    ensures Decode(Frame(Chunks(body)) + rest) == Some((body, rest))
  {
    ChunksOfBody(body);
    DecodeFrame(Chunks(body), rest);
  }

  // ---- a message is never complete too early ----

  lemma {:induction false} ReadLineExtends(s: string, more: string)
    requires ReadLine(s).Some?
    ensures ReadLine(s + more) == Some((ReadLine(s).value.0, ReadLine(s).value.1 + more))
  {
    assert (s + more)[..2] == s[..2];
    if s[..2] == CRLF {
      assert (s + more)[2..] == s[2..] + more;
    } else {
      assert (s + more)[1..] == s[1..] + more;
      ReadLineExtends(s[1..], more);
    }
  }

  lemma {:induction false} SkipTrailersExtends(s: string, more: string)
    requires SkipTrailers(s).Some?
    ensures SkipTrailers(s + more) == Some(SkipTrailers(s).value + more)
    decreases |s|
  {
    ReadLineExtends(s, more);
    if ReadLine(s).value.0 != "" {
      SkipTrailersExtends(ReadLine(s).value.1, more);
    }
  }

  lemma DataExtends(rest: string, n: nat, more: string)
    requires DataEnds(rest, n)
    ensures DataEnds(rest + more, n) && (rest + more)[..n] == rest[..n]
    ensures (rest + more)[n + 2..] == rest[n + 2..] + more
  {
    assert (rest + more)[n..n + 2] == rest[n..n + 2];
  }

  lemma ReadSizeExtends(s: string, more: string)
    requires ReadSize(s).Some?
    ensures ReadSize(s + more) == Some((ReadSize(s).value.0, ReadSize(s).value.1 + more))
  {
    ReadLineExtends(s, more);
  }

  /** Later bytes never change what was decoded. */
  lemma {:induction false} DecodeExtends(s: string, more: string)
    requires Decode(s).Some?
    ensures Decode(s + more) == Some((Decode(s).value.0, Decode(s).value.1 + more))
    decreases |s|
  {
    ReadSizeExtends(s, more);
    var n, rest := ReadSize(s).value.0, ReadSize(s).value.1;
    if n == 0 {
      SkipTrailersExtends(rest, more);
    } else {
      DecodeExtends(rest[n + 2..], more);
      DataExtends(rest, n, more);
      DecodeOneMore(s, n, rest);
      DecodeOneMore(s + more, n, rest + more);
    }
  }

  /** A chunk goes in front of what the others decode to. */
  lemma DecodeOneMore(s: string, n: nat, rest: string)
    requires ReadSize(s) == Some((n, rest)) && n > 0 && DataEnds(rest, n)
    ensures |rest[n + 2..]| < |s|
    ensures Decode(s) == match Decode(rest[n + 2..])
                         case None => None
                         case Some((body, after)) => Some((rest[..n] + body, after))
  {
  }

  lemma FrontIsIncomplete(front: string, back: string, body: string)
    requires Decode(front + back) == Some((body, "")) && back != ""
    ensures Decode(front) == None
  {
    if Decode(front).Some? {
      DecodeExtends(front, back);
      assert false;
    }
  }

  /** No receiver takes a response that was cut off for a complete one. */
  lemma CutOffIsIncomplete(body: string, k: nat)
    requires k < |Frame(Chunks(body))|
    ensures Decode(Frame(Chunks(body))[..k]) == None
  {
    var sent := Frame(Chunks(body));
    RoundTrip(body, "");
    assert sent + "" == sent && sent[..k] + sent[k..] == sent;
    FrontIsIncomplete(sent[..k], sent[k..], body);
  }

  /** Responses sent back to back are told apart: neither is taken for a part of the other. */
  lemma BackToBack(first: string, second: string)
    ensures Decode(Frame(Chunks(first)) + Frame(Chunks(second))) == Some((first, Frame(Chunks(second))))
    ensures Decode(Decode(Frame(Chunks(first)) + Frame(Chunks(second))).value.1) == Some((second, ""))
  {
    RoundTrip(first, Frame(Chunks(second)));
    RoundTrip(second, "");
    assert Frame(Chunks(second)) + "" == Frame(Chunks(second));
  }
}
