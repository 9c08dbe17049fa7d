/** Cutting a file's lines into the chunks that the lexical index stores. */
module IndexChunks {
  import opened Seqs
  import opened HunkApplier

  const CHUNK_LINES: nat := 24

  /** A line without its line feed, and without a carriage return before it. */
  function StripEol(s: string): string {
    if s == "" || s[|s| - 1] != '\n' then s
    else
      var n := |s| - 1;
      if n > 0 && s[n - 1] == '\r' then s[..n - 1] else s[..n]
  }

  function StripAll(raw: seq<string>): (r: seq<string>)
    ensures |r| == |raw| && forall i :: 0 <= i < |raw| ==> r[i] == StripEol(raw[i])
  {
    seq(|raw|, i requires 0 <= i < |raw| => StripEol(raw[i]))
  }

  function TextLines(text: string): seq<string> {
    StripAll(SplitInclusive(text))
  }

  /** Lines joined by newlines. */
  function Join(lines: seq<string>): string {
    if lines == [] then "" else if |lines| == 1 then lines[0] else lines[0] + ("\n" + Join(lines[1..]))
  }

  /** Chunk `id` shows lines `start` to `end`, counted from one. */
  datatype Chunk = Chunk(id: nat, start: nat, end: nat, text: string)

  function ChunkAt(lines: seq<string>, i: nat): Chunk
    requires i * CHUNK_LINES < |lines|
  {
    var from := i * CHUNK_LINES;
    var to := if from + CHUNK_LINES < |lines| then from + CHUNK_LINES else |lines|;
    Chunk(i, from + 1, to, Join(lines[from..to]))
  }

  function ChunkCount(n: nat): nat { (n + CHUNK_LINES - 1) / CHUNK_LINES }

  function Chunks(lines: seq<string>): (r: seq<Chunk>)
    ensures |r| == ChunkCount(|lines|)
  {
    seq(ChunkCount(|lines|), i requires 0 <= i < ChunkCount(|lines|) => ChunkAt(lines, i))
  }

  method CutChunks(text: string) returns (chunks: seq<Chunk>)
    ensures chunks == Chunks(TextLines(text))
  {
    hide Join;
    var lines := TextLines(text);
    chunks := [];
    var from := 0;
    while from < |lines|
      invariant from == |chunks| * CHUNK_LINES || (from == |lines| && |chunks| == ChunkCount(|lines|))
      invariant from < |lines| ==> from == |chunks| * CHUNK_LINES
      invariant from <= |lines| && |chunks| <= ChunkCount(|lines|)
      invariant forall i :: 0 <= i < |chunks| ==> i * CHUNK_LINES < |lines| && chunks[i] == ChunkAt(lines, i)
    {
      var to := if from + CHUNK_LINES < |lines| then from + CHUNK_LINES else |lines|;
      var length := to - from;
      var start := |chunks| * CHUNK_LINES + 1;
      var end := start + (if length >= 1 then length - 1 else 0);
      chunks := chunks + [Chunk(|chunks|, start, end, Join(lines[from..to]))];
      from := to;
    }
    assert |chunks| == ChunkCount(|lines|);
  }

  lemma {:induction false} JoinSplits(a: seq<string>, b: seq<string>)
    requires a != [] && b != []
    ensures Join(a + b) == Join(a) + ("\n" + Join(b))
  {
    var ab := a + b;
    if |a| == 1 {
      assert ab[1..] == b;
    } else {
      assert ab[0] == a[0] && ab[1..] == a[1..] + b;
      JoinSplits(a[1..], b);
      Reassociate(a[0], "\n" + Join(a[1..]), "\n" + Join(b));
      Reassociate("\n", Join(a[1..]), "\n" + Join(b));
    }
  }

  function ChunkTexts(chunks: seq<Chunk>): (r: seq<string>)
    ensures |r| == |chunks| && forall i :: 0 <= i < |chunks| ==> r[i] == chunks[i].text
  {
    seq(|chunks|, i requires 0 <= i < |chunks| => chunks[i].text)
  }

  /** The chunks tile the file: each is of 1 to 24 lines and starts after the one
      before it, the last ends the file, and their texts joined are the file's lines joined. */
  lemma ChunksTile(lines: seq<string>)
    ensures var chunks := Chunks(lines);
      && (forall i :: 0 <= i < |chunks| ==>
           chunks[i].id == i && 1 <= chunks[i].end - chunks[i].start + 1 <= 24)
      && (forall i :: 0 <= i < |chunks| - 1 ==> chunks[i].end - chunks[i].start + 1 == 24)
      && (forall i :: 0 <= i < |chunks| ==>
           1 <= chunks[i].start <= chunks[i].end <= |lines|
           && chunks[i].text == Join(lines[chunks[i].start - 1..chunks[i].end]))
      && (forall i :: 0 <= i < |chunks| ==> chunks[i].start == if i == 0 then 1 else chunks[i - 1].end + 1)
      && (chunks == [] <==> lines == [])
      && (chunks != [] ==> chunks[|chunks| - 1].end == |lines|)
      && Join(ChunkTexts(chunks)) == Join(lines)
  {
    hide Join;
    ChunksJoin(lines, |Chunks(lines)|);
    assert ChunkTexts(Chunks(lines))[..|Chunks(lines)|] == ChunkTexts(Chunks(lines));
    if lines != [] {
      assert lines[..|lines|] == lines;
    }
  }

  lemma {:induction false} ChunksJoin(lines: seq<string>, k: nat)
    requires k <= ChunkCount(|lines|)
    ensures var to := if k * CHUNK_LINES < |lines| then k * CHUNK_LINES else |lines|;
      Join(ChunkTexts(Chunks(lines))[..k]) == Join(lines[..to])
  {
    hide Join;
    if k > 0 {
      ChunksJoin(lines, k - 1);
      var texts, from := ChunkTexts(Chunks(lines)), (k - 1) * CHUNK_LINES;
      var to := if k * CHUNK_LINES < |lines| then k * CHUNK_LINES else |lines|;
      assert texts[..k] == texts[..k - 1] + [texts[k - 1]];
      assert lines[..to] == lines[..from] + lines[from..to];
      if k > 1 {
        JoinSplits(texts[..k - 1], [texts[k - 1]]);
        JoinSplits(lines[..from], lines[from..to]);
      } else {
        assert texts[..0] == [] && lines[..0] == [];
        assert texts[..1] == [texts[0]] && lines[..to] == lines[0..to];
      }
      JoinOne(texts[k - 1]);
    }
  }

  lemma JoinOne(s: string)
    ensures Join([s]) == s
  {
  }

  // ------------------------------------------------------------------ what a text's lines are

  /** A line and its ending: a newline, with a carriage return before it or not. */
  datatype Ended = Ended(line: string, crlf: bool)

  function Written(e: Ended): string { e.line + if e.crlf then "\r\n" else "\n" }

  ghost predicate IsEnded(e: Ended) {
    '\n' !in e.line && (!e.crlf && e.line != "" ==> e.line[|e.line| - 1] != '\r')
  }

  function AllWritten(es: seq<Ended>): string {
    if es == [] then "" else Written(es[0]) + AllWritten(es[1..])
  }

  function LinesOf(es: seq<Ended>): (lines: seq<string>)
    ensures |lines| == |es| && forall i :: 0 <= i < |es| ==> lines[i] == es[i].line
  {
    seq(|es|, i requires 0 <= i < |es| => es[i].line)
  }

  lemma StripTakesEnding(e: Ended)
    requires IsEnded(e)
    ensures IsLine(Written(e)) && StripEol(Written(e)) == e.line
  {
    var s, n := Written(e), |e.line|;
    assert s[..n] == e.line;
    forall i | 0 <= i < |s| - 1
      ensures s[i] != '\n'
    {
      assert i < n ==> s[i] == e.line[i];
    }
  }

  lemma LastLineIsKept(last: string)
    requires '\n' !in last
    ensures TextLines(last) == if last == "" then [] else [last]
  {
    if last != "" {
      NoNewlineIsOneLine(last);
      assert last[..|last|] == last && last[|last|..] == "" && last[|last| - 1] in last;
      assert SplitInclusive(last) == [last];
    }
  }

  lemma {:induction false} NoNewlineIsOneLine(s: string)
    requires '\n' !in s
    ensures LineLength(s) == |s|
  {
    if s != "" {
      NoNewlineIsOneLine(s[1..]);
    }
  }

  /** A text of lines with their endings, and an unended one, has exactly these lines. */
  lemma {:induction false} TextLinesAre(es: seq<Ended>, last: string)
    requires (forall i :: 0 <= i < |es| ==> IsEnded(es[i])) && '\n' !in last
    ensures TextLines(AllWritten(es) + last) == LinesOf(es) + if last == "" then [] else [last]
  {
    hide StripEol;
    hide IsEnded;
    if es == [] {
      LastLineIsKept(last);
      assert AllWritten(es) + last == last;
    } else {
      var first, rest := Written(es[0]), AllWritten(es[1..]) + last;
      Reassociate(first, AllWritten(es[1..]), last);
      StripTakesEnding(es[0]);
      FirstTextLine(first, rest);
      TextLinesAre(es[1..], last);
      assert LinesOf(es) == [es[0].line] + LinesOf(es[1..]);
    }
  }

  lemma FirstTextLine(first: string, rest: string)
    requires IsLine(first)
    ensures TextLines(first + rest) == [StripEol(first)] + TextLines(rest)
  {
    hide StripEol;
    LineLengthOf(first, rest);
    PrefixOfConcat(first, rest);
    assert SplitInclusive(first + rest) == [first] + SplitInclusive(rest);
  }
}
