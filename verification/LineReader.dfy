/** Reading log lines cut to a limit, from a buffered reader that hands out a line longer than
    its buffer in pieces. */
module LineReader {
  import opened Bytes

  /** Where the first line feed is, or -1. */
  function LineFeed(s: seq<Byte>): (at: int)
    ensures -1 <= at < |s|
    ensures at >= 0 ==> s[at] == LF
    ensures forall i :: 0 <= i < (if at < 0 then |s| else at) ==> s[i] != LF
  {
    if s == [] then -1
    else if s[0] == LF then 0
    else
      var at := LineFeed(s[1..]);
      if at < 0 then -1 else at + 1
  }

  /** A line without the carriage return before its line feed. */
  function WithoutReturn(s: seq<Byte>): seq<Byte> {
    if s != [] && s[|s| - 1] == CR then s[..|s| - 1] else s
  }

  /** A line as it is kept: whole when it fits, and else its beginning and a note. */
  function Cut(line: seq<Byte>, limit: nat): seq<Byte> {
    if |line| <= limit then line else line[..limit] + TRUNCATION_NOTE
  }

  function FirstOf(line: seq<Byte>, limit: nat): seq<Byte> {
    if |line| <= limit then line else line[..limit]
  }

  /** Whether the buffer fills before the line ends. */
  predicate Fills(rest: seq<Byte>, size: nat) {
    |rest| >= size && !(0 <= LineFeed(rest) < size)
  }

  /** How much of a full buffer is handed out: one carriage return at its end is put back, as
      the line feed that goes with it may be next. */
  function PieceLength(rest: seq<Byte>, size: nat): (n: nat)
    requires 1 < size <= |rest|
    ensures 0 < n <= size
  {
    if rest[size - 1] == CR then size - 1 else size
  }

  const SMALLEST_BUFFER := 16

  /** bufio.Reader: what is still to be read, and the size of the buffer. */
  class Reader {
    const size: nat
    var rest: seq<Byte>

    constructor (input: seq<Byte>, size: nat)
      ensures rest == input && this.size == if size < SMALLEST_BUFFER then SMALLEST_BUFFER else size
    {
      rest := input;
      this.size := if size < SMALLEST_BUFFER then SMALLEST_BUFFER else size;
    }

    /** A piece where the buffer fills; else a line without its end, or what is left where no
        line feed comes; and the end where nothing is left. A buffer that the last of the input
        fills is a piece like any other: the end is met by the next read. */
    method ReadLine() returns (chunk: seq<Byte>, more: bool, end: bool)
      requires size > 1
      modifies this
      ensures more == Fills(old(rest), size) && (end <==> old(rest) == [])
      ensures more ==> chunk == old(rest)[..PieceLength(old(rest), size)]
                       && rest == old(rest)[PieceLength(old(rest), size)..]
      ensures end ==> chunk == [] && rest == []
      ensures !end && !more && LineFeed(old(rest)) < 0 ==> chunk == old(rest) && rest == []
      ensures !end && !more && LineFeed(old(rest)) >= 0 ==>
                chunk == WithoutReturn(old(rest)[..LineFeed(old(rest))]) && rest == old(rest)[LineFeed(old(rest)) + 1..]
    {
      hide LineFeed, WithoutReturn;
      var at := LineFeed(rest);
      more, end := false, rest == [];
      if end {
        chunk := [];
      } else if |rest| >= size && !(0 <= at < size) {
        var n := PieceLength(rest, size);
        chunk, more, rest := rest[..n], true, rest[n..];
      } else if at < 0 {
        chunk, rest := rest, [];
      } else {
        chunk, rest := WithoutReturn(rest[..at]), rest[at + 1..];
      }
    }
  }

  lemma FeedAt(input: seq<Byte>, at: nat)
    requires at < |input| && input[at] == LF && forall i :: 0 <= i < at ==> input[i] != LF
    ensures LineFeed(input) == at
  {
    hide LineFeed;
  }

  lemma NoFeed(input: seq<Byte>)
    requires LF !in input
    ensures LineFeed(input) == -1
  {
    hide LineFeed;
  }

  lemma BeforeTheFeed(input: seq<Byte>)
    ensures LineFeed(input) < 0 ==> LF !in input
    ensures LineFeed(input) >= 0 ==> LF !in input[..LineFeed(input)] && input[LineFeed(input)] == LF
  {
    hide LineFeed;
  }

  /** What one read of a line takes from the input, however it is cut into pieces. */
  lemma PieceOfALine(input: seq<Byte>, taken: seq<Byte>, rest: seq<Byte>)
    requires input == taken + rest && LF !in taken
    ensures LineFeed(input) == if LineFeed(rest) < 0 then -1 else |taken| + LineFeed(rest)
    ensures LineFeed(rest) >= 0 ==> input[..LineFeed(input)] == taken + rest[..LineFeed(rest)]
                                    && input[LineFeed(input) + 1..] == rest[LineFeed(rest) + 1..]
  {
    hide LineFeed;
    var at := LineFeed(rest);
    BeforeTheFeed(rest);
    if at < 0 {
      NoFeed(input);
    } else {
      var front := rest[..at];
      forall i | 0 <= i < |taken| + at ensures input[i] != LF {
        if i < |taken| {
          assert input[i] in taken;
        } else {
          assert input[i] == front[i - |taken|];
        }
      }
      FeedAt(input, |taken| + at);
    }
  }

  /** What is left of an input without a line feed once every full buffer has been handed
      out. */
  function Unfilled(input: seq<Byte>, size: nat): (left: seq<Byte>)
    requires size > 1
    ensures |left| < size
  {
    if |input| < size then input else Unfilled(input[PieceLength(input, size)..], size)
  }

  /** Whether the end of the input is met before the line it cuts off is known to be over:
      no line feed comes, and the full buffers take all there is. */
  predicate EndsUnseen(input: seq<Byte>, size: nat)
    requires size > 1
  {
    LineFeed(input) < 0 && Unfilled(input, size) == []
  }

  /** The line read of an input, and what is left after it. */
  function LineOf(input: seq<Byte>, limit: nat, size: nat): seq<Byte>
    requires size > 1
  {
    var at := LineFeed(input);
    if at >= 0 then Cut(WithoutReturn(input[..at]), limit)
    else if EndsUnseen(input, size) then FirstOf(input, limit)
    else Cut(input, limit)
  }

  function RestOf(input: seq<Byte>): seq<Byte> {
    var at := LineFeed(input);
    if at >= 0 then input[at + 1..] else []
  }

  /** A line that ends in a line feed is read the same by every reader. */
  lemma EndedLinesAreReadAlike(input: seq<Byte>, limit: nat, size: nat, other: nat)
    requires LineFeed(input) >= 0 && size > 1 && other > 1
    ensures LineOf(input, limit, size) == LineOf(input, limit, other)
      == Cut(WithoutReturn(input[..LineFeed(input)]), limit)
  {
  }

  /** A line that a line feed ends, or a carriage return and a line feed, is read without them:
      whole where it fits, and else its beginning and the note. */
  lemma EndedLine(line: seq<Byte>, rest: seq<Byte>, limit: nat, size: nat)
    requires size > 1 && LF !in line
    ensures var kept := if |line| <= limit then line else line[..limit] + TRUNCATION_NOTE;
            && LineOf(line + ([CR, LF] + rest), limit, size) == kept
            && (line == [] || line[|line| - 1] != CR ==> LineOf(line + ([LF] + rest), limit, size) == kept)
    ensures RestOf(line + ([CR, LF] + rest)) == rest == RestOf(line + ([LF] + rest))
  {
    var long, short := line + ([CR, LF] + rest), line + ([LF] + rest);
    FeedAt(long, |line| + 1);
    FeedAt(short, |line|);
    hide LineFeed;
    assert long[..|line| + 1] == line + [CR] && (line + [CR])[..|line|] == line && long[|line| + 2..] == rest;
    assert short[..|line|] == line && short[|line| + 1..] == rest;
  }

  /** A line that nothing ends is read whole where it fits, a carriage return at its end too. */
  lemma UnendedLine(input: seq<Byte>, limit: nat, size: nat)
    requires size > 1 && LF !in input && |input| <= limit
    ensures LineOf(input, limit, size) == input && RestOf(input) == []
  {
    NoFeed(input);
    hide LineFeed;
  }

  /** Of a line no line feed ends, the note is missing exactly when the line is over-long and
      the last full buffer ends with the input. */
  lemma NoteIsMissingExactly(input: seq<Byte>, limit: nat, size: nat)
    requires size > 1 && LineFeed(input) < 0
    ensures LineOf(input, limit, size) != Cut(input, limit) <==> |input| > limit && Unfilled(input, size) == []
    ensures |input| > limit && Unfilled(input, size) == [] ==> LineOf(input, limit, size) == input[..limit]
  {
    hide LineFeed, Unfilled;
  }

  /** Without carriage returns every full buffer is handed out whole, so that is so exactly
      when its size divides the length of the input. */
  lemma {:induction false} WholeBuffers(input: seq<Byte>, size: nat)
    requires size > 1 && CR !in input
    ensures |Unfilled(input, size)| == |input| % size
  {
    if |input| >= size {
      assert input[size - 1] in input;
      WholeBuffers(input[size..], size);
      OneFewer(|input|, size);
    }
  }

  lemma OneFewer(n: nat, size: nat)
    requires 0 < size <= n
    ensures (n - size) % size == n % size
  {
    var q, r := (n - size) / size, (n - size) % size;
    assert (q + 1) * size == q * size + size;
    OneRemainder(size, n / size, n % size, q + 1, r);
  }

  lemma OneRemainder(size: nat, p: int, s: nat, q: int, r: nat)
    requires p * size + s == q * size + r && s < size && r < size
    ensures p == q && s == r
  {
    if p < q {
      SizesApart(p, q, size);
    } else if p > q {
      SizesApart(q, p, size);
    }
  }

  lemma SizesApart(p: int, q: int, size: nat)
    requires p < q
    ensures q * size >= p * size + size
  {
    assert q * size == p * size + size + (q - p - 1) * size;
  }

  const DRAIN_BUFFER := 65536
  const MAX_LINE_BYTES := 524288

  /** A letter written often enough to fill the buffer of drain nine times, and then the end
      of the input: 64 KiB are lost and no note says so. With one letter more the note is there. */
  lemma ALineCutUnsaid(letter: Byte, short: seq<Byte>, long: seq<Byte>)
    requires letter != CR && letter != LF
    requires short == seq(9 * DRAIN_BUFFER, _ => letter) && long == short + [letter]
    ensures LineOf(short, MAX_LINE_BYTES, DRAIN_BUFFER) == short[..MAX_LINE_BYTES] && |short| > MAX_LINE_BYTES
    ensures LineOf(long, MAX_LINE_BYTES, DRAIN_BUFFER) == long[..MAX_LINE_BYTES] + TRUNCATION_NOTE
  {
    assert forall i :: 0 <= i < |short| ==> short[i] == letter;
    assert forall i :: 0 <= i < |long| ==> long[i] == letter;
    NoFeed(short);
    NoFeed(long);
    WholeBuffers(short, DRAIN_BUFFER);
    WholeBuffers(long, DRAIN_BUFFER);
    hide LineFeed, Unfilled;
    NoteIsMissingExactly(short, MAX_LINE_BYTES, DRAIN_BUFFER);
    NoteIsMissingExactly(long, MAX_LINE_BYTES, DRAIN_BUFFER);
  }

  /** The beginning of an input that has been read in pieces, none of them ending a line. A
      carriage return at the end of a piece has another after it. */
  ghost predicate Taken(input: seq<Byte>, taken: seq<Byte>, rest: seq<Byte>, size: nat)
    requires size > 1
  {
    && input == taken + rest && LF !in taken
    && (taken != [] && taken[|taken| - 1] == CR ==> rest != [] && rest[0] == CR)
    && (LineFeed(input) < 0 ==> Unfilled(input, size) == Unfilled(rest, size))
  }

  ghost predicate Kept(taken: seq<Byte>, limit: nat, built: seq<Byte>, truncated: bool) {
    built == FirstOf(taken, limit) && truncated == (|taken| > limit)
  }

  lemma LastPiece(input: seq<Byte>, taken: seq<Byte>, before: seq<Byte>, chunk: seq<Byte>, limit: nat, size: nat,
                  built: seq<Byte>, truncated: bool)
    requires size > 1 && Taken(input, taken, before, size) && before != [] && !Fills(before, size)
    requires Kept(taken + chunk, limit, built, truncated)
    requires LineFeed(before) < 0 ==> chunk == before
    requires LineFeed(before) >= 0 ==> chunk == WithoutReturn(before[..LineFeed(before)])
    ensures LineOf(input, limit, size) == (if truncated then built + TRUNCATION_NOTE else built)
      && !EndsUnseen(input, size)
    ensures RestOf(input) == if LineFeed(before) < 0 then [] else before[LineFeed(before) + 1..]
  {
    hide LineFeed, WithoutReturn, FirstOf;
    PieceOfALine(input, taken, before);
    var at := LineFeed(before);
    if at >= 0 {
      assert before[0] == CR ==> at > 0;
      ReturnAtTheEnd(taken, before[..at]);
      assert taken + chunk == WithoutReturn(input[..LineFeed(input)]);
    } else {
      assert Unfilled(before, size) == before;
      assert taken + chunk == input;
    }
    hide Taken, Fills, Unfilled;
    KeptIsCut(taken + chunk, limit, built, truncated);
  }

  lemma KeptIsCut(line: seq<Byte>, limit: nat, built: seq<Byte>, truncated: bool)
    requires Kept(line, limit, built, truncated)
    ensures Cut(line, limit) == if truncated then built + TRUNCATION_NOTE else built
  {
  }

  lemma EndOfInput(input: seq<Byte>, taken: seq<Byte>, limit: nat, size: nat, built: seq<Byte>, truncated: bool)
    requires size > 1 && Taken(input, taken, [], size) && Kept(taken, limit, built, truncated)
    ensures LineOf(input, limit, size) == built && RestOf(input) == [] && EndsUnseen(input, size)
  {
    hide LineFeed;
    PieceOfALine(input, taken, []);
    BeforeTheFeed([]);
    assert input == taken;
  }

  lemma NothingTaken(input: seq<Byte>, limit: nat, size: nat)
    requires size > 1
    ensures Taken(input, [], input, size) && Kept([], limit, [], false)
  {
  }

  lemma NextPiece(input: seq<Byte>, taken: seq<Byte>, before: seq<Byte>, size: nat)
    requires size > 1 && Taken(input, taken, before, size) && Fills(before, size)
    ensures var n := PieceLength(before, size);
            Taken(input, taken + before[..n], before[n..], size)
  {
    hide LineFeed;
    var n := PieceLength(before, size);
    var chunk, rest := before[..n], before[n..];
    assert taken + chunk + rest == taken + before;
    PieceOfALine(input, taken, before);
    assert LF !in chunk;
    assert n < size ==> rest[0] == before[n];
  }

  method Keep(built: seq<Byte>, truncated: bool, chunk: seq<Byte>, limit: nat, ghost taken: seq<Byte>)
    returns (kept: seq<Byte>, cut: bool)
    requires Kept(taken, limit, built, truncated)
    ensures Kept(taken + chunk, limit, kept, cut)
  {
    kept, cut := built, truncated;
    var room := limit - |built|;
    if room > 0 {
      var part := chunk;
      if |chunk| > room {
        part, cut := chunk[..room], true;
      }
      kept := kept + part;
    } else if |chunk| > 0 {
      cut := true;
    }
  }

  /** Reads a line cut to the limit. One that a line feed ends is cut whole, its tail taken
      along, so that the next read begins at the next line. */
  method ReadLine(reader: Reader, limit: nat) returns (line: seq<Byte>, end: bool)
    requires reader.size > 1
    modifies reader
    ensures line == LineOf(old(reader.rest), limit, reader.size) && reader.rest == RestOf(old(reader.rest))
    ensures end <==> EndsUnseen(old(reader.rest), reader.size)
  {
    hide LineFeed, WithoutReturn, LineOf, RestOf, EndsUnseen, Taken, Kept, Fills;
    ghost var input := reader.rest;
    ghost var taken: seq<Byte> := [];
    var built: seq<Byte> := [];
    var truncated := false;
    NothingTaken(input, limit, reader.size);
    while true
      invariant Taken(input, taken, reader.rest, reader.size) && Kept(taken, limit, built, truncated)
      decreases |reader.rest|
    {
      ghost var before := reader.rest;
      var chunk, more, stop := reader.ReadLine();
      built, truncated := Keep(built, truncated, chunk, limit, taken);
      if stop {
        assert taken + chunk == taken;
        EndOfInput(input, taken, limit, reader.size, built, truncated);
        return built, true;
      }
      if !more {
        LastPiece(input, taken, before, chunk, limit, reader.size, built, truncated);
        break;
      }
      FullBuffer(before, reader.size);
      NextPiece(input, taken, before, reader.size);
      taken := taken + chunk;
    }
    return if truncated then built + TRUNCATION_NOTE else built, false;
  }

  lemma FullBuffer(rest: seq<Byte>, size: nat)
    requires Fills(rest, size)
    ensures |rest| >= size
  {
  }

  lemma ReturnAtTheEnd(taken: seq<Byte>, last: seq<Byte>)
    requires taken != [] && taken[|taken| - 1] == CR ==> last != []
    ensures WithoutReturn(taken + last) == taken + WithoutReturn(last)
  {
  }

  /** The lines of an input, each ended by a line feed. */
  function Lines(input: seq<Byte>): seq<seq<Byte>> {
    var at := LineFeed(input);
    if at < 0 then [] else [WithoutReturn(input[..at])] + Lines(input[at + 1..])
  }

  /** What follows the last line feed. */
  function Tail(input: seq<Byte>): seq<Byte> {
    var at := LineFeed(input);
    if at < 0 then input else Tail(input[at + 1..])
  }

  function CutAll(lines: seq<seq<Byte>>, limit: nat): seq<seq<Byte>> {
    seq(|lines|, i requires 0 <= i < |lines| => Cut(lines[i], limit))
  }

  /** The lines read of an input: those a line feed ends, each cut to the limit, and then the
      tail, if there is one, as it is read. */
  function AllRead(input: seq<Byte>, limit: nat, size: nat): seq<seq<Byte>>
    requires size > 1
  {
    CutAll(Lines(input), limit) + if Tail(input) == [] then [] else [LineOf(Tail(input), limit, size)]
  }

  lemma CutFirst(first: seq<Byte>, lines: seq<seq<Byte>>, limit: nat)
    ensures CutAll([first] + lines, limit) == [Cut(first, limit)] + CutAll(lines, limit)
  {
  }

  /** The lines of an input are the first and those of the rest. */
  lemma LineByLine(input: seq<Byte>, limit: nat, size: nat)
    requires size > 1 && input != []
    ensures AllRead(input, limit, size) == [LineOf(input, limit, size)] + AllRead(RestOf(input), limit, size)
    ensures |RestOf(input)| < |input|
  {
    var rest := RestOf(input);
    if LineFeed(input) >= 0 {
      var first := WithoutReturn(input[..LineFeed(input)]);
      CutFirst(first, Lines(rest), limit);
    } else {
      assert Lines(input) == [] && Lines(rest) == [];
    }
  }

  lemma AtTheEnd(input: seq<Byte>, limit: nat, size: nat)
    requires size > 1 && limit > 0 && EndsUnseen(input, size)
    ensures RestOf(input) == [] && AllRead([], limit, size) == []
    ensures LineOf(input, limit, size) == [] <==> input == []
  {
  }

  function Ended(lines: seq<seq<Byte>>): seq<Byte> {
    if lines == [] then [] else lines[0] + ([CR, LF] + Ended(lines[1..]))
  }

  /** Lines written one after the other are read as those lines, and what stands after the last
      line feed as one more. */
  lemma {:induction false} LinesAreRead(lines: seq<seq<Byte>>, last: seq<Byte>, limit: nat, size: nat)
    requires size > 1 && LF !in last && forall i :: 0 <= i < |lines| ==> LF !in lines[i]
    ensures AllRead(Ended(lines) + last, limit, size)
            == CutAll(lines, limit) + if last == [] then [] else [LineOf(last, limit, size)]
  {
    hide LineFeed, LineOf, RestOf, AllRead;
    var input := Ended(lines) + last;
    if lines == [] {
      assert input == last;
      NoLines(last, limit, size);
    } else {
      var more := Ended(lines[1..]) + last;
      assert input == lines[0] + ([CR, LF] + more);
      hide CutAll, Ended, Cut;
      CutIsKept(lines[0], limit);
      EndedLine(lines[0], more, limit, size);
      LineByLine(input, limit, size);
      LinesAreRead(lines[1..], last, limit, size);
      CutFirst(lines[0], lines[1..], limit);
      assert lines == [lines[0]] + lines[1..];
      var tail := if last == [] then [] else [LineOf(last, limit, size)];
      assert [Cut(lines[0], limit)] + (CutAll(lines[1..], limit) + tail) == CutAll(lines, limit) + tail;
    }
  }

  lemma NoLines(last: seq<Byte>, limit: nat, size: nat)
    requires size > 1 && LF !in last
    ensures AllRead(last, limit, size) == CutAll([], limit) + if last == [] then [] else [LineOf(last, limit, size)]
  {
    NoFeed(last);
    hide LineFeed, LineOf;
    assert Lines(last) == [] && Tail(last) == last;
  }

  lemma CutIsKept(line: seq<Byte>, limit: nat)
    ensures Cut(line, limit) == if |line| <= limit then line else line[..limit] + TRUNCATION_NOTE
  {
  }

  /** The loop that drains a pipe reads every line, in order, an over-long one as one line. */
  method Drain(reader: Reader, limit: nat) returns (lines: seq<seq<Byte>>)
    requires limit > 0 && reader.size > 1
    modifies reader
    ensures lines == AllRead(old(reader.rest), limit, reader.size) && reader.rest == []
  {
    hide LineFeed, LineOf, RestOf, EndsUnseen, AllRead;
    lines := [];
    ghost var all := AllRead(reader.rest, limit, reader.size);
    while true
      invariant lines + AllRead(reader.rest, limit, reader.size) == all
      decreases |reader.rest|
    {
      ghost var before := reader.rest;
      var line, end := ReadLine(reader, limit);
      if end {
        AtTheEnd(before, limit, reader.size);
      } else {
        NotAtTheEnd(before, reader.size);
      }
      if line == [] && end {
        return;
      }
      LineByLine(before, limit, reader.size);
      Regroup(lines, line, AllRead(reader.rest, limit, reader.size));
      lines := lines + [line];
      if end {
        return;
      }
    }
  }

  lemma Regroup(a: seq<seq<Byte>>, line: seq<Byte>, b: seq<seq<Byte>>)
    ensures a + ([line] + b) == a + [line] + b
  {
  }

  lemma NotAtTheEnd(before: seq<Byte>, size: nat)
    requires size > 1 && !EndsUnseen(before, size)
    ensures before != []
  {
  }
}
