/**
 * The line grouping of parse_fasta in code/parse_fasta.cpp, over the list
 * of lines the file holds: every line starting with '>' opens a new
 * sequence, every other line is appended to the current one. Opening the
 * file and reading it line by line are not modelled.
 */
module ParseFasta {

  /** A header line starts with '>'; an empty line is not one (reading its first character gives NUL). */
  predicate IsHeader(line: string) {
    |line| > 0 && line[0] == '>'
  }

  predicate NoHeaders(lines: seq<string>) {
    forall k :: 0 <= k < |lines| ==> !IsHeader(lines[k])
  }

  /** The lines joined end to end. */
  function Concat(lines: seq<string>): string {
    if lines == [] then "" else Concat(lines[..|lines| - 1]) + lines[|lines| - 1]
  }

  /** Number of header lines. */
  function CountHeaders(lines: seq<string>): nat {
    if lines == [] then 0 else CountHeaders(lines[..|lines| - 1]) + (if IsHeader(lines[|lines| - 1]) then 1 else 0)
  }

  /** parse_fasta's loop state: the sequences already flushed, the one being read, and whether a header was seen. */
  datatype Scan = Scan(seqs: seq<string>, cur: string, seen: bool)

  const Start := Scan([], "", false)

  /** One pass of the loop: a header flushes the current sequence if one was opened, and starts an empty one. */
  function Step(st: Scan, line: string): Scan {
    if IsHeader(line) then Scan(if st.seen then st.seqs + [st.cur] else st.seqs, "", true)
    else st.(cur := st.cur + line)
  }

  /** The loop state after the given lines, from st. */
  function Steps(st: Scan, lines: seq<string>): Scan {
    if lines == [] then st else Step(Steps(st, lines[..|lines| - 1]), lines[|lines| - 1])
  }

  /** What parse_fasta returns for the lines: the flushed sequences and then the last one. */
  function Parsed(lines: seq<string>): seq<string> {
    var st := Steps(Start, lines);
    st.seqs + [st.cur]
  }

  /** parse_fasta over the lines of the file. */
  method ParseFasta(lines: seq<string>) returns (seqs: seq<string>)
    ensures seqs == Parsed(lines)
  {
    seqs := [];
    var curSeq := "";
    var seenSeq := false;
    for i := 0 to |lines|
      invariant Scan(seqs, curSeq, seenSeq) == Steps(Start, lines[..i])
    {
      assert lines[..i + 1][..i] == lines[..i];
      var inputLine := lines[i];
      if |inputLine| > 0 && inputLine[0] == '>' {
        if seenSeq {
          seqs := seqs + [curSeq];
        } else {
          seenSeq := true;
        }
        curSeq := "";
      } else {
        curSeq := curSeq + inputLine;
      }
    }
    assert lines[..|lines|] == lines;
    seqs := seqs + [curSeq];
  }

  // ---------------------------------------------------------------------
  // What the grouping means
  // ---------------------------------------------------------------------

  /** Running the loop over two stretches of lines is running it over the first, then the second. */
  lemma {:induction false} StepsAppend(st: Scan, p: seq<string>, q: seq<string>)
    ensures Steps(st, p + q) == Steps(Steps(st, p), q)
    decreases |q|
  {
    if q == [] {
      assert p + q == p;
    } else {
      var q' := q[..|q| - 1];
      assert (p + q)[..|p + q| - 1] == p + q';
      StepsAppend(st, p, q');
    }
  }

  /** Body lines only extend the sequence being read. */
  lemma {:induction false} BodySteps(st: Scan, b: seq<string>)
    requires NoHeaders(b)
    ensures Steps(st, b) == st.(cur := st.cur + Concat(b))
    decreases |b|
  {
    if b != [] {
      BodySteps(st, b[..|b| - 1]);
    }
  }

  /** Sequences flushed before do not change what the loop does with later lines. */
  lemma {:induction false} StepsKeepFlushed(st: Scan, pre: seq<string>, lines: seq<string>)
    ensures Steps(st.(seqs := pre + st.seqs), lines) == Steps(st, lines).(seqs := pre + Steps(st, lines).seqs)
    decreases |lines|
  {
    if lines != [] {
      StepsKeepFlushed(st, pre, lines[..|lines| - 1]);
    }
  }

  /** Each header counts once: one sequence per header, and one for a file without any. */
  lemma {:induction false} StepsCount(lines: seq<string>)
    ensures Steps(Start, lines).seen <==> CountHeaders(lines) > 0
    ensures |Steps(Start, lines).seqs| == if CountHeaders(lines) == 0 then 0 else CountHeaders(lines) - 1
    decreases |lines|
  {
    if lines != [] {
      StepsCount(lines[..|lines| - 1]);
    }
  }

  /** parse_fasta returns as many sequences as there are headers, and one when there is none. */
  lemma ParsedCount(lines: seq<string>)
    ensures |Parsed(lines)| == if CountHeaders(lines) == 0 then 1 else CountHeaders(lines)
  {
    StepsCount(lines);
  }

  /** Without a header, all lines form one sequence; no lines at all give one empty sequence. */
  lemma ParsedNoHeader(b: seq<string>)
    requires NoHeaders(b)
    ensures Parsed(b) == [Concat(b)]
  {
    BodySteps(Start, b);
    assert "" + Concat(b) == Concat(b);
  }

  /** Lines before the first header are dropped. */
  lemma ParsedDropsPreamble(b: seq<string>, lines: seq<string>)
    requires NoHeaders(b) && lines != [] && IsHeader(lines[0])
    ensures Parsed(b + lines) == Parsed(lines)
  {
    var rest := lines[1..];
    assert lines == [lines[0]] + rest;
    StepsAppend(Start, b, lines);
    BodySteps(Start, b);
    StepsAppend(Steps(Start, b), [lines[0]], rest);
    StepsAppend(Start, [lines[0]], rest);
  }

  /**
   * A header followed by body lines and then the next header (or the end)
   * yields the body lines joined, followed by what the rest yields.
   */
  lemma ParsedSection(h: string, b: seq<string>, lines: seq<string>)
    requires IsHeader(h) && NoHeaders(b) && (lines == [] || IsHeader(lines[0]))
    ensures Parsed([h] + b + lines) == [Concat(b)] + (if lines == [] then [] else Parsed(lines))
  {
    var headed := Steps(Start, [h]);
    assert [h][..0] == [];
    assert Steps(Start, []) == Start;
    assert headed == Step(Start, h) == Scan([], "", true);
    assert "" + Concat(b) == Concat(b);
    StepsAppend(Start, [h], b);
    BodySteps(headed, b);
    var read := Scan([], Concat(b), true);
    StepsAppend(Start, [h] + b, lines);
    if lines == [] {
      assert [h] + b + lines == [h] + b;
    } else {
      var rest := lines[1..];
      assert lines == [lines[0]] + rest;
      StepsAppend(read, [lines[0]], rest);
      StepsAppend(Start, [lines[0]], rest);
      var next := Scan([], "", true);
      StepsKeepFlushed(next, [Concat(b)], rest);
      assert next.(seqs := [Concat(b)] + next.seqs) == Steps(read, [lines[0]]);
    }
  }

  /** Header lines contribute no text: changing what a header says changes nothing in the result. */
  lemma {:induction false} HeaderTextIgnored(lines: seq<string>, lines': seq<string>)
    requires |lines| == |lines'|
    requires forall k :: 0 <= k < |lines| ==>
      IsHeader(lines[k]) == IsHeader(lines'[k]) && (!IsHeader(lines[k]) ==> lines[k] == lines'[k])
    ensures Steps(Start, lines) == Steps(Start, lines')
    ensures Parsed(lines) == Parsed(lines')
    decreases |lines|
  {
    if lines != [] {
      HeaderTextIgnored(lines[..|lines| - 1], lines'[..|lines| - 1]);
    }
  }
}
