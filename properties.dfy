/**
 * Properties of the request parser and the responder: how the buffer is cut
 * into the request line and the header lines, when a request is rejected,
 * what a well-formed request line yields, how header lines become
 * dictionary entries, and what `response` and `handle` send.
 */
module RequestProperties {
  import opened ByteStrings
  import opened Requests

  /** The words of the status line that `response` produces. */
  function ResponseTokens(): seq<Bytes> {
    [Ascii("HTTP/1.1"), Ascii("400"), Ascii("Bad"), Ascii("request")]
  }

  /** A line laid out as leading whitespace `pre`, the tokens `toks` with
      the runs of whitespace `gaps` between them, and trailing whitespace
      `post` that ends in LF (a bare LF, CRLF, or any other run before it).
      No LF comes before the last byte. */
  predicate LineLayout(pre: Bytes, toks: seq<Bytes>, gaps: seq<Bytes>, post: Bytes) {
    && ValidTokens(toks) && GapsFit(toks, gaps) && ValidGaps(gaps)
    && (forall k :: 0 <= k < |gaps| ==> NoLF(gaps[k]))
    && AllSpace(pre) && NoLF(pre)
    && AllSpace(post) && post != [] && post[|post| - 1] == LF && NoLF(post[..|post| - 1])
  }

  /** Such a line, read as the first line of a buffer, ends exactly at its
      final LF. */
  lemma TokenLineEnd(pre: Bytes, toks: seq<Bytes>, gaps: seq<Bytes>, post: Bytes, rest: Bytes)
    requires LineLayout(pre, toks, gaps, post)
    ensures var line := pre + JoinWith(toks, gaps) + post;
      LineEnd(line + rest, 0) == |line|
  {
    var j := JoinWith(toks, gaps);
    var line := pre + j + post;
    var s := line + rest;
    JoinWithNoLF(toks, gaps);
    forall k | 0 <= k < |line| - 1
      ensures s[k] != LF
    {
      if k < |pre| {
        assert s[k] == pre[k];
      } else if k < |pre| + |j| {
        assert s[k] == j[k - |pre|];
      } else {
        assert s[k] == post[..|post| - 1][k - |pre| - |j|];
      }
    }
    assert s[|line| - 1] == post[|post| - 1];
    LineEndUnique(s, 0, |line|);
  }

  /** The stripped words of such a line are its tokens. */
  lemma TokenLineWords(pre: Bytes, toks: seq<Bytes>, gaps: seq<Bytes>, post: Bytes)
    requires LineLayout(pre, toks, gaps, post)
    ensures RequestTokens(pre + JoinWith(toks, gaps) + post) == toks
  {
    var j := JoinWith(toks, gaps);
    JoinWithEdges(toks, gaps);
    StripUnique(pre + j + post, pre, j, post);
    assert [] + j + [] == j;
    SplitPadded([], toks, gaps, []);
  }

  /** Both facts together, for a line followed by anything. */
  lemma TokenLine(pre: Bytes, toks: seq<Bytes>, gaps: seq<Bytes>, post: Bytes, rest: Bytes)
    requires LineLayout(pre, toks, gaps, post)
    ensures var line := pre + JoinWith(toks, gaps) + post;
      && LineEnd(line + rest, 0) == |line|
      && RequestTokens(line) == toks
  {
    TokenLineEnd(pre, toks, gaps, post, rest);
    TokenLineWords(pre, toks, gaps, post);
  }

  lemma ResponseTokensValid()
    ensures ValidTokens(ResponseTokens())
  {
  }

  /** The single spaces between the words of the status line. */
  function ResponseGaps(): seq<Bytes> {
    [[SP], [SP], [SP]]
  }

  /** The response is the four status-line words joined by single spaces,
      then CRLF. */
  lemma ResponseWords(status: Status, headers: Option<map<Bytes, Bytes>>, body: Option<Bytes>)
    ensures Response(status, headers, body) == JoinWith(ResponseTokens(), ResponseGaps()) + CRLF
  {
    var toks, gaps := ResponseTokens(), ResponseGaps();
    assert JoinWith(toks[3..], gaps[3..]) == toks[3];
    assert JoinWith(toks[2..], gaps[2..]) == toks[2] + [SP] + toks[3];
    assert JoinWith(toks[1..], gaps[1..]) == toks[1] + [SP] + JoinWith(toks[2..], gaps[2..]);
  }

  /** Whatever status, headers and body it is given, `response` returns one
      complete line (ending in CRLF, with no other LF) whose words are
      `HTTP/1.1`, `400`, `Bad` and `request`. */
  lemma ResponseIsStatusLine(status: Status, headers: Option<map<Bytes, Bytes>>, body: Option<Bytes>)
    ensures var r := Response(status, headers, body);
      && |r| >= 2 && r[|r| - 2..] == CRLF
      && FirstLine(r) == r
      && RequestTokens(r) == ResponseTokens()
  {
    var r := Response(status, headers, body);
    var toks, gaps := ResponseTokens(), ResponseGaps();
    ResponseWords(status, headers, body);
    ResponseTokensValid();
    assert CRLF[..1] == [CR];
    assert LineLayout([], toks, gaps, CRLF);
    TokenLine([], toks, gaps, CRLF, []);
    assert [] + JoinWith(toks, gaps) + CRLF == r;
    assert r + [] == r;
  }

  // ---------------------------------------------------------------------
  // The request line and the lines after it

  /** The request line is the buffer up to and including its first LF, or
      the whole buffer when there is none; the lines the header loop sees are
      exactly the rest of the buffer, cut after each LF. */
  lemma {:induction false} RequestLineAndHeaderLines(raw: Bytes)
    ensures var e := LineEnd(raw, 0);
      && FirstLine(raw) == raw[..e]
      && (raw != [] ==> LineShaped(raw[..e]))
      && (e == |raw| || raw[e - 1] == LF)
      && raw == raw[..e] + Concat(LinesFrom(raw, e))
      && (forall t :: 0 <= t < |LinesFrom(raw, e)| ==> LineShaped(LinesFrom(raw, e)[t]))
  {
    var e := LineEnd(raw, 0);
    if raw != [] {
      FirstLineShape(raw, 0);
      assert raw[0..e] == raw[..e];
    }
    LinesFromConcat(raw, e);
    assert raw == raw[..e] + raw[e..];
    LinesFromShape(raw, e);
  }

  /** A request line that does not strip and split into exactly three words
      sets status 400 and leaves method, path, version and headers unset;
      three words set those fields in order and leave the status unset. */
  lemma ParseOutcome(raw: Bytes)
    ensures var p := Parse(raw);
      var toks := RequestTokens(p.requestLine);
      && (p.status == Some(BadRequest) <==> |toks| != 3)
      && (|toks| != 3 ==> p.requestMethod == None && p.path == None && p.version == None && p.headers == map[])
      && (|toks| == 3 ==> p.status == None && p.requestMethod == Some(toks[0]) && p.path == Some(toks[1]) && p.version == Some(toks[2]))
  {
  }

  /** When the first line of `line + rest` is exactly `line`, the parse
      depends on `line` for the request line and on the lines of `rest` for
      the headers. */
  lemma ParseAfterFirstLine(line: Bytes, rest: Bytes)
    requires LineEnd(line + rest, 0) == |line|
    ensures var toks := RequestTokens(line);
      Parse(line + rest) ==
        if |toks| != 3 then Parsed(line, None, None, None, map[], Some(BadRequest))
        else Parsed(line, Some(toks[0]), Some(toks[1]), Some(toks[2]), ApplyHeaders(map[], LinesFrom(rest, 0)), None)
  {
    assert (line + rest)[..|line|] == line;
    LinesFromShift(line, rest, 0);
  }

  /** Any three words, whatever the method and version, separated by any
      runs of whitespace, with any whitespace before them and any whitespace
      ending in LF after them: the parse sets exactly those fields, no
      status, and the headers of the lines that follow. */
  lemma WellFormedRequest(pre: Bytes, m: Bytes, p: Bytes, v: Bytes, gaps: seq<Bytes>, post: Bytes, rest: Bytes)
    requires LineLayout(pre, [m, p, v], gaps, post)
    ensures var line := pre + JoinWith([m, p, v], gaps) + post;
      Parse(line + rest) == Parsed(line, Some(m), Some(p), Some(v), ApplyHeaders(map[], LinesFrom(rest, 0)), None)
  {
    TokenLine(pre, [m, p, v], gaps, post, rest);
    ParseAfterFirstLine(pre + JoinWith([m, p, v], gaps) + post, rest);
  }

  /** A request line of any other number of words, the empty one included,
      laid out with any whitespace, is rejected with 400 and nothing else is
      parsed. */
  lemma MalformedRequest(pre: Bytes, toks: seq<Bytes>, gaps: seq<Bytes>, post: Bytes, rest: Bytes)
    requires LineLayout(pre, toks, gaps, post) && |toks| != 3
    ensures var line := pre + JoinWith(toks, gaps) + post;
      Parse(line + rest) == Parsed(line, None, None, None, map[], Some(BadRequest))
  {
    TokenLine(pre, toks, gaps, post, rest);
    ParseAfterFirstLine(pre + JoinWith(toks, gaps) + post, rest);
  }

  /** An empty buffer is a malformed request. */
  lemma EmptyRequest()
    ensures Parse([]) == Parsed([], None, None, None, map[], Some(BadRequest))
  {
    assert Strip([]) == [];
  }

  // ---------------------------------------------------------------------
  // Header lines

  /** `find` at a position where `pat` occurs and does not occur earlier. */
  lemma FindAt(s: Bytes, pat: Bytes, e: nat)
    requires OccursAt(s, pat, e)
    requires forall k: nat :: k < e ==> !OccursAt(s, pat, k)
    ensures Find(s, pat) == e
  {
  }

  /** `name + ": " + value` splits back into `name` and `value` when the
      name holds no `": "`; the value may hold any bytes. */
  lemma SplitHeaderRoundTrip(name: Bytes, value: Bytes)
    requires !Contains(name, SEP)
    ensures SplitHeader(name + SEP + value) == Some(Header(name, value))
  {
    var line := name + SEP + value;
    assert line[|name|..|name| + 2] == SEP;
    forall k: nat | k < |name|
      ensures !OccursAt(line, SEP, k)
    {
      if k + 2 <= |name| {
        assert line[k..k + 2] == name[k..k + 2];
        assert !OccursAt(name, SEP, k);
      } else {
        assert line[k + 1] == COLON;
      }
    }
    FindAt(line, SEP, |name|);
    assert line[..|name|] == name;
    assert line[|name| + 2..] == value;
  }

  /** A header line `Name: Value` ended by any whitespace yields exactly that
      name and value, provided the name neither holds `": "` nor starts with
      whitespace and the value does not end with whitespace. */
  lemma HeaderLineRoundTrip(name: Bytes, value: Bytes, term: Bytes)
    requires !Contains(name, SEP)
    requires name == [] || !IsSpace(name[0])
    requires value != [] && !IsSpace(value[|value| - 1])
    requires AllSpace(term)
    ensures HeaderOf(name + SEP + value + term) == Some(Header(name, value))
  {
    var core := name + SEP + value;
    StripUnique(core + term, [], core, term);
    assert [] + core + term == core + term;
    SplitHeaderRoundTrip(name, value);
  }

  /** A header line with an empty value, `Name: ` followed by its line end,
      is no header at all: stripping removes the space after the colon, so
      no `": "` is left to split on. */
  lemma EmptyValueDropped(name: Bytes, term: Bytes)
    requires !Contains(name, SEP)
    requires name == [] || !IsSpace(name[0])
    requires AllSpace(term)
    ensures HeaderOf(name + SEP + term) == None
  {
    var core := name + [COLON];
    var line := name + SEP + term;
    assert line == [] + core + ([SP] + term);
    StripUnique(line, [], core, [SP] + term);
    forall k: nat | k <= |core|
      ensures !OccursAt(core, SEP, k)
    {
      if k + 2 <= |name| {
        assert core[k..k + 2] == name[k..k + 2];
        assert !OccursAt(name, SEP, k);
      } else if k + 2 <= |core| {
        assert core[k..k + 2][1] == core[k + 1] == COLON;
      }
    }
  }

  /** Blank lines, such as the one that ends the header block, are no
      header. */
  lemma BlankLineIsNoHeader(line: Bytes)
    requires AllSpace(line)
    ensures HeaderOf(line) == None
  {
    StripUnique(line, line, [], []);
    assert line == line + [] + [];
  }

  /** `line` is a header line whose name is `k`. */
  predicate CarriesName(line: Bytes, k: Bytes) {
    HeaderOf(line).Some? && HeaderOf(line).value.name == k
  }

  /** A name that no line carries keeps whatever the dictionary held. */
  lemma {:induction false} HeaderUntouched(h: map<Bytes, Bytes>, lines: seq<Bytes>, k: Bytes)
    requires forall j :: 0 <= j < |lines| ==> !CarriesName(lines[j], k)
    ensures (k in ApplyHeaders(h, lines)) == (k in h)
    ensures k in h ==> ApplyHeaders(h, lines)[k] == h[k]
    decreases |lines|
  {
    if lines != [] {
      assert !CarriesName(lines[0], k);
      HeaderUntouched(AddHeader(h, lines[0]), lines[1..], k);
    }
  }

  /** For a name carried by several lines, the last of them decides the
      stored value. */
  lemma {:induction false} LastHeaderWins(h: map<Bytes, Bytes>, lines: seq<Bytes>, j: nat, k: Bytes, v: Bytes)
    requires j < |lines| && HeaderOf(lines[j]) == Some(Header(k, v))
    requires forall j' :: j < j' < |lines| ==> !CarriesName(lines[j'], k)
    ensures k in ApplyHeaders(h, lines) && ApplyHeaders(h, lines)[k] == v
    decreases |lines|
  {
    var h', tail := AddHeader(h, lines[0]), lines[1..];
    assert ApplyHeaders(h, lines) == ApplyHeaders(h', tail);
    forall i | j <= i < |tail|
      ensures !CarriesName(tail[i], k)
    {
      assert tail[i] == lines[i + 1];
    }
    if j == 0 {
      assert h' == h[k := v];
      HeaderUntouched(h', tail, k);
    } else {
      assert tail[j - 1] == lines[j];
      LastHeaderWins(h', tail, j - 1, k, v);
    }
  }

  /** A line that is no header leaves the outcome of the loop unchanged,
      wherever it stands. */
  lemma {:induction false} NonHeaderLineIgnored(h: map<Bytes, Bytes>, before: seq<Bytes>, line: Bytes, after: seq<Bytes>)
    requires HeaderOf(line) == None
    ensures ApplyHeaders(h, before + [line] + after) == ApplyHeaders(h, before + after)
    decreases |before|
  {
    if before == [] {
      assert before + [line] + after == [line] + after;
      assert ([line] + after)[1..] == after;
      assert before + after == after;
    } else {
      assert (before + [line] + after)[1..] == before[1..] + [line] + after;
      assert (before + after)[1..] == before[1..] + after;
      NonHeaderLineIgnored(AddHeader(h, before[0]), before[1..], line, after);
    }
  }

  /** No stored name holds `": "` (a stored value may). */
  lemma {:induction false} HeaderNamesHaveNoSeparator(h: map<Bytes, Bytes>, lines: seq<Bytes>)
    requires forall k :: k in h ==> !Contains(k, SEP)
    ensures forall k :: k in ApplyHeaders(h, lines) ==> !Contains(k, SEP)
    decreases |lines|
  {
    if lines != [] {
      HeaderNamesHaveNoSeparator(AddHeader(h, lines[0]), lines[1..]);
    }
  }

  /** After a successful parse of `raw`, there are no more header names than
      lines after the request line, and none of them holds `": "`. */
  lemma ParsedHeaders(raw: Bytes)
    requires Parse(raw).status == None
    ensures var p := Parse(raw);
      && |p.headers| <= |LinesFrom(raw, |p.requestLine|)|
      && forall k :: k in p.headers ==> !Contains(k, SEP)
  {
    var lines := LinesFrom(raw, LineEnd(raw, 0));
    HeaderNamesHaveNoSeparator(map[], lines);
  }
}
