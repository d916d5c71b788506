/** The in-place tokeniser of src/ayla/parse_argv.c. */
module ParseArgv {
  import opened Options

  const NUL: char := '\0'

  predicate Blank(c: char) {
    c == ' ' || c == '\t'
  }

  predicate Quote(c: char) {
    c == '\'' || c == '"'
  }

  // ---------------------------------------------------------------- what it computes

  function SkipBlanks(s: seq<char>): seq<char>
    decreases |s|
  {
    if s != [] && Blank(s[0]) then SkipBlanks(s[1..]) else s
  }

  /** The argument at the start of `s`, inside a quote or not, and the text from its end on. */
  function Word(s: seq<char>, quote: Option<char>): (seq<char>, seq<char>)
    decreases |s|
  {
    if s == [] then ([], [])
    else if quote == Some(s[0]) then Word(s[1..], None)
    else if quote.None? && Quote(s[0]) then Word(s[1..], Some(s[0]))
    else if quote.None? && Blank(s[0]) then ([], s)
    else
      var (arg, rest) := Word(s[1..], quote);
      ([s[0]] + arg, rest)
  }

  /** The first `max` arguments of a text. */
  function Parse(s: seq<char>, max: nat): (args: seq<seq<char>>)
    ensures |args| <= max
    decreases max
  {
    if max == 0 then []
    else
      var t := SkipBlanks(s);
      if t == [] then []
      else
        var (arg, rest) := Word(t, None);
        [arg] + if rest == [] then [] else Parse(rest[1..], max - 1)
  }

  // ---------------------------------------------------------------- quoting

  /** How an argument may be written: plain characters and quoted stretches, in any mixture. */
  datatype Piece = Bare(c: char) | Quoted(quote: char, body: seq<char>)
  {
    ghost predicate Good() {
      match this
      case Bare(c) => c !in {' ', '\t', '\'', '"', '\0'}
      case Quoted(q, body) => q in {'\'', '"'} && q !in body && '\0' !in body
    }

    function Text(): (s: seq<char>)
      ensures s != []
    {
      match this
      case Bare(c) => [c]
      case Quoted(q, body) => [q] + (body + [q])
    }

    function Meaning(): seq<char> {
      match this
      case Bare(c) => [c]
      case Quoted(_, body) => body
    }
  }

  function TextOf(ps: seq<Piece>): (s: seq<char>)
    ensures ps != [] ==> s != []
    decreases |ps|
  {
    if ps == [] then [] else ps[0].Text() + TextOf(ps[1..])
  }

  function MeaningOf(ps: seq<Piece>): seq<char>
    decreases |ps|
  {
    if ps == [] then [] else ps[0].Meaning() + MeaningOf(ps[1..])
  }

  ghost predicate AllGood(ps: seq<Piece>) {
    forall p :: p in ps ==> p.Good()
  }

  /** Inside a quote everything up to the next such quote is taken as it stands. */
  lemma {:induction false} QuotedBody(body: seq<char>, q: char, rest: seq<char>)
    requires q !in body
    ensures Word(body + ([q] + rest), Some(q)) == (body + Word(rest, None).0, Word(rest, None).1)
    decreases |body|
  {
    var s := body + ([q] + rest);
    if body == [] {
      assert s == [q] + rest && s[1..] == rest;
      assert [] + Word(rest, None).0 == Word(rest, None).0;
    } else {
      assert s[1..] == body[1..] + ([q] + rest);
      QuotedBody(body[1..], q, rest);
      assert [body[0]] + (body[1..] + Word(rest, None).0) == body + Word(rest, None).0;
    }
  }

  lemma PieceTaken(p: Piece, rest: seq<char>)
    requires p.Good()
    ensures Word(p.Text() + rest, None) == (p.Meaning() + Word(rest, None).0, Word(rest, None).1)
  {
    match p
    case Bare(c) => assert ([c] + rest)[1..] == rest;
    case Quoted(q, body) =>
      var s := p.Text() + rest;
      assert s[1..] == body + ([q] + rest);
      QuotedBody(body, q, rest);
  }

  lemma {:induction false} PiecesTaken(ps: seq<Piece>, rest: seq<char>)
    requires AllGood(ps) && (rest != [] ==> Blank(rest[0]))
    ensures Word(TextOf(ps) + rest, None) == (MeaningOf(ps), rest)
    decreases |ps|
  {
    if ps == [] {
      assert [] + rest == rest;
    } else {
      assert ps[0] in ps;
      assert AllGood(ps[1..]) by {
        assert forall p :: p in ps[1..] ==> p in ps;
      }
      PiecesTaken(ps[1..], rest);
      PieceTaken(ps[0], TextOf(ps[1..]) + rest);
      assert TextOf(ps) + rest == ps[0].Text() + (TextOf(ps[1..]) + rest);
    }
  }

  /** Behind a quote that is not closed everything to the end of the text belongs to the word. */
  lemma {:induction false} OpenQuoteTakesRest(ps: seq<Piece>, q: char, body: seq<char>)
    requires AllGood(ps) && q in {'\'', '"'} && q !in body
    ensures Word(TextOf(ps) + ([q] + body), None) == (MeaningOf(ps) + body, [])
    decreases |ps|
  {
    hide Word, Piece.Good, Piece.Text, Piece.Meaning;
    if ps == [] {
      assert [] + ([q] + body) == [q] + body && [] + body == body;
      OpenQuote(body, q);
    } else {
      assert ps[0] in ps;
      assert forall p :: p in ps[1..] ==> p in ps;
      OpenQuoteTakesRest(ps[1..], q, body);
      PieceTaken(ps[0], TextOf(ps[1..]) + ([q] + body));
      assert TextOf(ps) + ([q] + body) == ps[0].Text() + (TextOf(ps[1..]) + ([q] + body));
      assert MeaningOf(ps) + body == ps[0].Meaning() + (MeaningOf(ps[1..]) + body);
    }
  }

  lemma OpenQuote(body: seq<char>, q: char)
    requires q in {'\'', '"'} && q !in body
    ensures Word([q] + body, None) == (body, [])
  {
    assert ([q] + body)[1..] == body;
    OpenBody(body, q);
  }

  lemma {:induction false} OpenBody(body: seq<char>, q: char)
    requires q !in body
    ensures Word(body, Some(q)) == (body, [])
    decreases |body|
  {
    if body != [] {
      OpenBody(body[1..], q);
      assert body == [body[0]] + body[1..];
    }
  }

  /** A command line: each word behind its gap, and blanks at the end. */
  function Line(words: seq<seq<Piece>>, gaps: seq<seq<char>>, trail: seq<char>): seq<char>
    requires |gaps| == |words|
    decreases |words|
  {
    if words == [] then trail else gaps[0] + (TextOf(words[0]) + Line(words[1..], gaps[1..], trail))
  }

  ghost predicate Blanks(s: seq<char>) {
    forall c :: c in s ==> c in {' ', '\t'}
  }

  /** Words are not empty, gaps are blank, and two words have a gap between them. */
  ghost predicate Spaced(words: seq<seq<Piece>>, gaps: seq<seq<char>>, trail: seq<char>) {
    && |gaps| == |words| && Blanks(trail)
    && (forall i :: 0 <= i < |words| ==> words[i] != [] && AllGood(words[i]))
    && (forall i :: 0 <= i < |gaps| ==> Blanks(gaps[i]))
    && (forall i :: 1 <= i < |gaps| ==> gaps[i] != [])
  }

  function Meanings(words: seq<seq<Piece>>): (m: seq<seq<char>>)
    ensures |m| == |words| && forall i :: 0 <= i < |m| ==> m[i] == MeaningOf(words[i])
    decreases |words|
  {
    if words == [] then [] else [MeaningOf(words[0])] + Meanings(words[1..])
  }

  lemma {:induction false} GapSkipped(gap: seq<char>, rest: seq<char>)
    requires Blanks(gap)
    ensures SkipBlanks(gap + rest) == SkipBlanks(rest)
    decreases |gap|
  {
    if gap == [] {
      assert gap + rest == rest;
    } else {
      assert (gap + rest)[1..] == gap[1..] + rest;
      assert gap[0] in gap && forall c :: c in gap[1..] ==> c in gap;
      GapSkipped(gap[1..], rest);
    }
  }

  lemma WordStarts(ps: seq<Piece>)
    requires ps != [] && AllGood(ps)
    ensures !Blank(TextOf(ps)[0])
  {
    assert ps[0] in ps;
    assert TextOf(ps)[0] == ps[0].Text()[0];
  }

  lemma LineTail(words: seq<seq<Piece>>, gaps: seq<seq<char>>, trail: seq<char>)
    requires Spaced(words, gaps, trail) && words != []
    ensures Spaced(words[1..], gaps[1..], trail)
    ensures var rest := Line(words[1..], gaps[1..], trail); if rest == [] then |words| == 1 else Blank(rest[0])
  {
    var rest := Line(words[1..], gaps[1..], trail);
    if |words| == 1 {
      assert rest == trail;
      assert trail != [] ==> trail[0] in trail;
    } else {
      assert rest[0] == gaps[1][0] && gaps[1][0] in gaps[1];
    }
  }

  lemma NothingSkipped(s: seq<char>)
    requires s == [] || !Blank(s[0])
    ensures SkipBlanks(s) == s
  {
  }

  lemma LeadingBlank(s: seq<char>, max: nat)
    requires s != [] && Blank(s[0])
    ensures Parse(s, max) == Parse(s[1..], max)
  {
  }

  /** One word behind its gap. */
  lemma WordParsed(gap: seq<char>, ps: seq<Piece>, rest: seq<char>, max: nat)
    requires Blanks(gap) && ps != [] && AllGood(ps) && (rest != [] ==> Blank(rest[0])) && max > 0
    ensures Parse(gap + (TextOf(ps) + rest), max) == [MeaningOf(ps)] + Parse(rest, max - 1)
  {
    hide Word, SkipBlanks, TextOf, MeaningOf, Blank, Parse;
    var t := TextOf(ps) + rest;
    ParseStep(gap + t, max);
    GapSkipped(gap, t);
    WordStarts(ps);
    NothingSkipped(t);
    PiecesTaken(ps, rest);
    if rest == [] {
      NoWords(rest, max - 1);
    } else {
      LeadingBlank(rest, max - 1);
    }
  }

  lemma ParseStep(s: seq<char>, max: nat)
    requires max > 0
    ensures var t := SkipBlanks(s);
            Parse(s, max) ==
            if t == [] then []
            else [Word(t, None).0] + if Word(t, None).1 == [] then [] else Parse(Word(t, None).1[1..], max - 1)
  {
    hide SkipBlanks, Word;
  }

  lemma MeaningsTail(words: seq<seq<Piece>>, n: nat)
    requires words != [] && n <= |words| - 1
    ensures [MeaningOf(words[0])] + Meanings(words[1..])[..n] == Meanings(words)[..n + 1]
  {
    hide MeaningOf;
    var rest := Meanings(words[1..]);
    assert Meanings(words) == [MeaningOf(words[0])] + rest;
    hide Meanings;
    assert ([MeaningOf(words[0])] + rest)[..n + 1] == [MeaningOf(words[0])] + rest[..n];
  }

  /** Main result: however its words are quoted and spaced, a line parses back to their meanings, as
      many of them as there is room for. */
  lemma {:induction false} LineParsesBack(words: seq<seq<Piece>>, gaps: seq<seq<char>>, trail: seq<char>, max: nat)
    requires Spaced(words, gaps, trail)
    ensures Parse(Line(words, gaps, trail), max) == Meanings(words)[..if max < |words| then max else |words|]
    decreases max
  {
    hide Parse, TextOf, MeaningOf, Meanings, Blank, Blanks, AllGood;
    if max == 0 || words == [] {
      NoWords(trail, max);
      NoRoom(Line(words, gaps, trail));
    } else {
      LineTail(words, gaps, trail);
      WordParsed(gaps[0], words[0], Line(words[1..], gaps[1..], trail), max);
      LineParsesBack(words[1..], gaps[1..], trail, max - 1);
      MeaningsTail(words, if max < |words| then max - 1 else |words| - 1);
    }
  }

  lemma NoWords(trail: seq<char>, max: nat)
    requires Blanks(trail)
    ensures Parse(trail, max) == []
  {
    GapSkipped(trail, []);
    assert trail + [] == trail;
  }

  lemma NoRoom(s: seq<char>)
    ensures Parse(s, 0) == []
  {
  }

  /** In particular, arguments wrapped in a quote they do not contain, one blank apart. */
  function Wrapped(args: seq<seq<char>>, quotes: seq<char>): (words: seq<seq<Piece>>)
    requires |quotes| == |args|
    ensures |words| == |args|
    ensures forall i :: 0 <= i < |args| ==> words[i] == [Quoted(quotes[i], args[i])]
  {
    seq(|args|, i requires 0 <= i < |args| => [Quoted(quotes[i], args[i])])
  }

  lemma QuotingIsUndone(args: seq<seq<char>>, quotes: seq<char>, max: nat)
    requires |quotes| == |args| <= max
    requires forall i :: 0 <= i < |args| ==> quotes[i] in {'\'', '"'} && quotes[i] !in args[i] && '\0' !in args[i]
    ensures Parse(Line(Wrapped(args, quotes), seq(|args|, i => if i == 0 then [] else [' ']), []), max) == args
  {
    hide Parse, Line;
    var words := Wrapped(args, quotes);
    var gaps := seq(|args|, i => if i == 0 then [] else [' ']);
    forall i | 0 <= i < |words|
      ensures words[i] != [] && AllGood(words[i]) && Meanings(words)[i] == args[i]
    {
      var p := Quoted(quotes[i], args[i]);
      assert words[i] == [p] && p.Good();
      assert MeaningOf([p]) == p.Meaning() + MeaningOf([p][1..]);
    }
    LineParsesBack(words, gaps, [], max);
    assert Meanings(words) == args;
  }

  // ---------------------------------------------------------------- in place

  /** From a position on, the first NUL of a buffer is at `end`. */
  ghost predicate Terminated(b: seq<char>, from: nat, end: nat) {
    from <= end < |b| && b[end] == NUL && NUL !in b[from..end]
  }

  /** A C string found at a position. */
  ghost predicate StringAt(b: seq<char>, at: nat, s: seq<char>) {
    at + |s| < |b| && b[at..at + |s|] == s && b[at + |s|] == NUL
  }

  lemma SkipNext(s: seq<char>, i: nat)
    requires i < |s|
    ensures SkipBlanks(s[i..]) == if Blank(s[i]) then SkipBlanks(s[i + 1..]) else s[i..]
  {
    assert s[i..][1..] == s[i + 1..];
  }

  lemma EndAt(b: seq<char>, from: nat, end: nat, i: nat)
    requires Terminated(b, from, end) && from <= i <= end
    ensures i < |b| && (b[i] == NUL <==> i == end) && end < |b|
  {
    if i < end {
      assert b[from..end][i - from] in b[from..end];
    }
  }

  lemma NoneLeft(s: seq<char>)
    ensures s[|s|..] == [] && SkipBlanks(s[|s|..]) == []
  {
  }

  method Skip(buf: array<char>, from: nat, ghost end: nat) returns (cp: nat)
    requires from <= end && Terminated(buf[..], from, end)
    ensures from <= cp <= end && buf[cp..end] == SkipBlanks(buf[from..end])
    ensures buf[cp] == NUL <==> cp == end
  {
    hide SkipBlanks, Terminated;
    cp := from;
    ghost var b := buf[..];
    EndAt(b, from, end, from);
    ghost var t := buf[..end];
    while buf[cp] != NUL && (buf[cp] == ' ' || buf[cp] == '\t')
      invariant from <= cp <= end < buf.Length && SkipBlanks(t[cp..]) == SkipBlanks(t[from..])
      decreases end - cp
    {
      EndAt(b, from, end, cp);
      SkipNext(t, cp);
      cp := cp + 1;
    }
    EndAt(b, from, end, cp);
    NoneLeft(t);
    if cp < end {
      SkipNext(t, cp);
    }
    assert buf[cp..end] == t[cp..] && buf[from..end] == t[from..];
  }

  lemma WordNext(s: seq<char>, i: nat, quote: Option<char>)
    requires i < |s|
    ensures var (arg, rest) := Word(s[i..], quote);
            if quote == Some(s[i]) then (arg, rest) == Word(s[i + 1..], None)
            else if quote.None? && Quote(s[i]) then (arg, rest) == Word(s[i + 1..], Some(s[i]))
            else if quote.None? && Blank(s[i]) then arg == [] && rest == s[i..]
            else arg == [s[i]] + Word(s[i + 1..], quote).0 && rest == Word(s[i + 1..], quote).1
  {
    assert s[i..][1..] == s[i + 1..];
  }

  /** The inner loop: one argument is copied down over its own quotes and terminated. */
  method Take(buf: array<char>, start: nat, ghost end: nat) returns (cp: nat, c: char, ghost arg: seq<char>)
    requires start <= end && Terminated(buf[..], start, end)
    modifies buf
    ensures start <= cp <= end && start + |arg| <= cp && (c == NUL <==> cp == end)
    ensures (arg, old(buf[..end])[cp..]) == Word(old(buf[..end])[start..], None)
    ensures StringAt(buf[..], start, arg)
    ensures buf[..start] == old(buf[..start]) && buf[cp + 1..] == old(buf[cp + 1..])
    ensures end < buf.Length && buf[end..] == old(buf[end..])
  {
    hide Word, Terminated;
    ghost var b := buf[..];
    EndAt(b, start, end, start);
    ghost var t := buf[..end];
    var quote: Option<char> := None;
    cp := start;
    var dest := start;
    EndAt(b, start, end, start);
    EmptyFirst(Word(t[start..], None).0);
    assert buf[start..dest] == [];
    while buf[cp] != NUL
      invariant start <= dest <= cp <= end < buf.Length
      invariant buf[..start] == b[..start] && buf[cp..] == b[cp..]
      invariant Word(t[start..], None) == (buf[start..dest] + Word(t[cp..], quote).0, Word(t[cp..], quote).1)
      decreases end - cp
    {
      EndAt(b, start, end, cp);
      c := buf[cp];
      assert buf[cp..][0] == b[cp..][0];
      assert buf[cp..][1..] == buf[cp + 1..] && b[cp..][1..] == b[cp + 1..];
      WordNext(t, cp, quote);
      if quote.Some? {
        if c == quote.value {
          quote := None;
          cp := cp + 1;
          continue;
        }
      } else {
        if c == '\'' || c == '"' {
          quote := Some(c);
          cp := cp + 1;
          continue;
        }
        if c == ' ' || c == '\t' {
          break;
        }
      }
      CopyDown(buf, start, dest, cp, Word(t[cp + 1..], quote).0);
      dest := dest + 1;
      cp := cp + 1;
    }
    EndAt(b, start, end, cp);
    assert buf[cp..][0] == b[cp..][0];
    assert buf[cp..][1..] == buf[cp + 1..] && b[cp..][1..] == b[cp + 1..];
    WordEnd(t, cp, quote);
    c := buf[cp];
    arg := buf[start..dest];
    assert arg + [] == arg;
    TailOfTail(buf[..], b, cp, end);
    buf[dest] := NUL;
  }

  lemma TailOfTail(now: seq<char>, b: seq<char>, from: nat, later: nat)
    requires from <= later <= |b| == |now| && now[from..] == b[from..]
    ensures now[later..] == b[later..]
  {
    assert now[later..] == now[from..][later - from..] && b[later..] == b[from..][later - from..];
  }

  lemma EmptyFirst(s: seq<char>)
    ensures [] + s == s
  {
  }

  /** At the end of the text, or at a blank outside quotes, the word is over. */
  lemma WordEnd(t: seq<char>, cp: nat, quote: Option<char>)
    requires cp == |t| || (cp < |t| && quote.None? && Blank(t[cp]))
    ensures Word(t[cp..], quote) == ([], t[cp..])
  {
  }

  /** *dest++ = *cp. */
  method CopyDown(buf: array<char>, ghost start: nat, dest: nat, cp: nat, ghost more: seq<char>)
    requires start <= dest <= cp < buf.Length
    modifies buf
    ensures buf[start..dest + 1] + more == old(buf[start..dest]) + ([old(buf[cp])] + more)
    ensures buf[..start] == old(buf[..start]) && buf[cp + 1..] == old(buf[cp + 1..])
  {
    ghost var before := buf[start..dest];
    buf[dest] := buf[cp];
    assert buf[start..dest + 1] == before + [old(buf[cp])];
  }

  lemma StringKept(b: seq<char>, b1: seq<char>, start: nat, at: nat, s: seq<char>)
    requires start <= |b| == |b1| && b[..start] == b1[..start] && at + |s| < start && StringAt(b, at, s)
    ensures StringAt(b1, at, s)
  {
    assert b[at..at + |s|] == b[..start][at..at + |s|] && b1[at..at + |s|] == b1[..start][at..at + |s|];
    assert b[..start][at + |s|] == b1[..start][at + |s|];
  }

  /** What has been found by the time the reading position is `cp`: each argument is a string in the
      part of the buffer already read, one behind the other. */
  ghost predicate Found(b: seq<char>, at: seq<nat>, args: seq<seq<char>>, cp: nat) {
    && |at| == |args|
    && (forall i :: 0 <= i < |at| ==> at[i] + |args[i]| < cp && StringAt(b, at[i], args[i]))
    && (forall i, j :: 0 <= i < j < |at| ==> at[i] + |args[i]| < at[j])
  }

  lemma FoundKept(b: seq<char>, b1: seq<char>, at: seq<nat>, args: seq<seq<char>>, start: nat)
    requires Found(b, at, args, start) && start <= |b| == |b1| && b[..start] == b1[..start]
    ensures Found(b1, at, args, start)
  {
    hide StringAt;
    forall i | 0 <= i < |at|
      ensures StringAt(b1, at[i], args[i])
    {
      StringKept(b, b1, start, at[i], args[i]);
    }
  }

  lemma FoundNext(b: seq<char>, at: seq<nat>, args: seq<seq<char>>, start: nat, arg: seq<char>, cp: nat)
    requires Found(b, at, args, start) && StringAt(b, start, arg) && start + |arg| <= cp
    ensures Found(b, at + [start], args + [arg], cp + 1)
  {
    hide StringAt;
  }

  lemma FoundNothing(b: seq<char>, cp: nat)
    ensures Found(b, [], [], cp)
  {
  }

  lemma FoundLonger(b: seq<char>, at: seq<nat>, args: seq<seq<char>>, cp: nat, later: nat)
    requires Found(b, at, args, cp) && cp <= later
    ensures Found(b, at, args, later)
  {
  }

  /** A buffer that still holds the original text from some position on. */
  lemma SameTail(b: seq<char>, now: seq<char>, cp: nat, from: nat, end: nat)
    requires |b| == |now| && cp <= from <= end < |b| && now[cp..] == b[cp..]
    ensures now[from..end] == b[..end][from..] && now[..end][from..] == b[..end][from..] && now[from..] == b[from..]
  {
    assert now[from..] == now[cp..][from - cp..] && b[from..] == b[cp..][from - cp..];
    assert now[from..end] == now[from..][..end - from] && b[..end][from..] == b[from..][..end - from];
  }

  lemma TerminatedTail(b: seq<char>, now: seq<char>, cp: nat, end: nat)
    requires Terminated(b, 0, end) && |b| == |now| && cp <= end && now[cp..] == b[cp..]
    ensures Terminated(now, cp, end)
  {
    assert now[end] == now[cp..][end - cp] && b[end] == b[cp..][end - cp];
    SameTail(b, now, cp, cp, end);
    forall i | cp <= i < end
      ensures now[i] != NUL
    {
      assert now[i] == now[cp..end][i - cp] == b[..end][cp..][i - cp];
      assert b[0..end][i] in b[0..end];
    }
  }

  lemma ParseEnds(t: seq<char>, max: nat)
    ensures Parse(t, 0) == [] && Parse([], max) == []
    ensures SkipBlanks(t) == [] ==> Parse(t, max) == []
  {
  }

  lemma ParseAdvances(t: seq<char>, cp: nat, start: nat, next: nat, arg: seq<char>, args: seq<seq<char>>, max: nat)
    requires cp <= start < |t| && next <= |t| && max > 0
    requires t[start..] == SkipBlanks(t[cp..]) && (arg, t[next..]) == Word(t[start..], None)
    ensures args + Parse(t[cp..], max)
         == (args + [arg]) + if next == |t| then [] else Parse(t[next + 1..], max - 1)
  {
    hide Parse, SkipBlanks, Word;
    ParseStep(t[cp..], max);
    if next < |t| {
      assert t[next..][1..] == t[next + 1..];
    }
  }

  /** parse_argv.  `argv` receives positions in the buffer instead of pointers. */
  method Split(argv: array<Option<nat>>, argvLen: nat, buf: array<char>, ghost end: nat)
    returns (argc: nat, ghost at: seq<nat>)
    requires argvLen <= argv.Length && Terminated(buf[..], 0, end)
    modifies argv, buf
    ensures argc == |Parse(old(buf[..end]), argvLen)| == |at|
    ensures forall i :: 0 <= i < argc ==> argv[i] == Some(at[i])
    ensures Found(buf[..], at, Parse(old(buf[..end]), argvLen), end + 1)
    ensures argc < argvLen ==> argv[argc] == None
    ensures forall i :: argc < i < argv.Length || i == argc == argvLen < argv.Length ==> argv[i] == old(argv[i])
    ensures end < buf.Length && buf[end..] == old(buf[end..])
  {
    argc, at := SplitLoop(argv, argvLen, buf, end);
    if argc < argvLen {
      argv[argc] := None;
    }
  }

  /** The second half of its loop: one argument, which starts at `start`. */
  method TakeArgument(
      buf: array<char>, ghost cp: nat, start: nat, ghost end: nat, ghost b: seq<char>,
      ghost at: seq<nat>, ghost args: seq<seq<char>>, ghost max: nat)
    returns (next: nat, c: char, ghost arg: seq<char>)
    requires cp <= start < end < |b| == buf.Length && max > 0 && Terminated(b, 0, end) && buf[cp..] == b[cp..]
    requires b[..end][start..] == SkipBlanks(b[..end][cp..]) && Found(buf[..], at, args, cp)
    modifies buf
    ensures start <= next <= end && (c == NUL <==> next == end)
    ensures next < end ==> buf[next + 1..] == b[next + 1..]
    ensures buf[end..] == b[end..] && Found(buf[..], at + [start], args + [arg], next + 1)
    ensures args + Parse(b[..end][cp..], max)
         == (args + [arg]) + if next == end then [] else Parse(b[..end][next + 1..], max - 1)
  {
    hide Terminated, Found, Parse, SkipBlanks, Word, StringAt;
    ghost var before := buf[..];
    SameTail(b, before, cp, start, end);
    TerminatedTail(b, before, start, end);
    FoundLonger(before, at, args, cp, start);
    next, c, arg := Take(buf, start, end);
    FoundKept(before, buf[..], at, args, start);
    FoundNext(buf[..], at, args, start, arg, next);
    SameTail(b, before, cp, next, end);
    ParseAdvances(b[..end], cp, start, next, arg, args, max);
    TailOfTail(before, b, cp, end);
    if next < end {
      TailOfTail(before, b, cp, next + 1);
    }
  }

  /** Its first half. */
  method SkipTo(buf: array<char>, cp: nat, ghost end: nat, ghost b: seq<char>, ghost max: nat) returns (start: nat)
    requires cp <= end < |b| == buf.Length && Terminated(b, 0, end) && buf[cp..] == b[cp..]
    ensures cp <= start <= end && b[..end][start..] == SkipBlanks(b[..end][cp..])
    ensures buf[start] == NUL <==> start == end
    ensures start == end ==> Parse(b[..end][cp..], max) == []
  {
    hide Terminated, Parse, SkipBlanks;
    TerminatedTail(b, buf[..], cp, end);
    SameTail(b, buf[..], cp, cp, end);
    start := Skip(buf, cp, end);
    SameTail(b, buf[..], cp, start, end);
    ParseEnds(b[..end][cp..], max);
  }

  lemma SplitStarts(b: seq<char>, end: nat, max: nat)
    requires Terminated(b, 0, end)
    ensures end < |b| && (b[0] == NUL <==> end == 0) && Found(b, [], [], 0)
    ensures [] + Parse(b[..end][0..], max) == Parse(b[..end], max)
  {
    hide Terminated, Parse;
    EndAt(b, 0, end, 0);
    FoundNothing(b, 0);
    assert b[..end][0..] == b[..end];
  }

  /** The loop has stopped at the end of the line, or with as many arguments as were asked for. */
  lemma SplitEnds(b: seq<char>, now: seq<char>, cp: nat, end: nat, at: seq<nat>, args: seq<seq<char>>, max: nat)
    requires Terminated(b, 0, end) && cp <= end < |b| == |now| && now[cp..] == b[cp..]
    requires (max == 0 || now[cp] == NUL) && Found(now, at, args, cp)
    ensures Parse(b[..end][cp..], max) == [] && Found(now, at, args, end + 1)
  {
    hide Terminated, Found, Parse;
    EndAt(b, 0, end, cp);
    assert now[cp..][0] == b[cp..][0];
    assert cp == end ==> b[..end][cp..] == [];
    ParseEnds(b[..end][cp..], max);
    FoundLonger(now, at, args, cp, end + 1);
  }

  /** Its loop. */
  method SplitLoop(argv: array<Option<nat>>, argvLen: nat, buf: array<char>, ghost end: nat)
    returns (argc: nat, ghost at: seq<nat>)
    requires argvLen <= argv.Length && Terminated(buf[..], 0, end)
    modifies argv, buf
    ensures argc == |Parse(old(buf[..end]), argvLen)| == |at|
    ensures forall i :: 0 <= i < argc ==> argv[i] == Some(at[i])
    ensures Found(buf[..], at, Parse(old(buf[..end]), argvLen), end + 1)
    ensures forall i :: argc <= i < argv.Length ==> argv[i] == old(argv[i])
    ensures end < buf.Length && buf[end..] == old(buf[end..])
  {
    hide Terminated, Found, Parse, SkipBlanks;
    ghost var b, args := buf[..], [];
    var cp, more := 0, true;
    argc, at := 0, [];
    SplitStarts(b, end, argvLen);
    ghost var t := b[..end];
    assert t == buf[..end];
    while more && argc < argvLen && buf[cp] != NUL
      invariant argc == |at| == |args| <= argvLen && cp <= end < buf.Length && (more ==> buf[cp..] == b[cp..])
      invariant Found(buf[..], at, args, if more then cp else end + 1) && buf[end..] == b[end..]
      invariant args + (if more then Parse(t[cp..], argvLen - argc) else []) == Parse(t, argvLen)
      invariant forall i :: 0 <= i < argc ==> argv[i] == Some(at[i])
      invariant forall i :: argc <= i < argv.Length ==> argv[i] == old(argv[i])
      decreases more, end - cp
    {
      var start := SkipTo(buf, cp, end, b, argvLen - argc);
      if buf[start] == NUL {
        FoundLonger(buf[..], at, args, cp, end + 1);
        more := false;
      } else {
        argv[argc] := Some(start);
        var next, c, arg := TakeArgument(buf, cp, start, end, b, at, args, argvLen - argc);
        argc, at, args := argc + 1, at + [start], args + [arg];
        if c == NUL {
          more := false;
        } else {
          cp := next + 1;
        }
      }
    }
    if more {
      SplitEnds(b, buf[..], cp, end, at, args, argvLen - argc);
    }
    assert args + [] == args;
  }
}
