/**
  Ingestion of the awards list: splitting a line on the delimiter outside
  quotes (`parseCSVLine`), splitting the producers field
  (`parseProducers`) and turning the lines after the header into movies
  (the loop of `readMoviesFromCSV`). The file is given as its sequence of
  lines; `delim` is the first character of the configured delimiter and
  `quote` the configured quote character.
 */
module DataLoader {
  import opened Wrappers
  import opened JavaText
  import opened Model

  // ===========================================================================
  // parseCSVLine
  // ===========================================================================

  /** The scanner's variables: the `values` list, the `sb` buffer and the `inQuotes` flag. */
  datatype ScanState = ScanState(fields: seq<string>, buf: string, inQuotes: bool)

  const Start: ScanState := ScanState([], "", false)

  /** One turn of the scanner's loop, on character `c`. */
  function Step(st: ScanState, c: char, delim: char, quote: char): (next: ScanState)
  {
    if c == quote then st.(inQuotes := !st.inQuotes)
    else if c == delim && !st.inQuotes then st.(fields := st.fields + [Trim(st.buf)], buf := "")
    else st.(buf := st.buf + [c])
  }

  /** The scanner run over `s` from state `st`. */
  function Scan(st: ScanState, s: string, delim: char, quote: char): (after: ScanState)
    decreases |s|
  {
    if |s| == 0 then st else Scan(Step(st, s[0], delim, quote), s[1..], delim, quote)
  }

  /** The fields of a line: those closed by a delimiter, then the trimmed rest. */
  function SplitLine(line: string, delim: char, quote: char): (values: seq<string>)
  {
    var st := Scan(Start, line, delim, quote);
    st.fields + [Trim(st.buf)]
  }

  /** `parseCSVLine`: the character loop over the line. */
  method ParseCsvLine(line: string, delim: char, quote: char) returns (values: seq<string>)
    ensures values == SplitLine(line, delim, quote)
  {
    values := [];
    var inQuotes := false;
    var sb := "";
    for i := 0 to |line|
      invariant Scan(ScanState(values, sb, inQuotes), line[i..], delim, quote)
                == Scan(Start, line, delim, quote)
    {
      var c := line[i];
      assert line[i..][1..] == line[i + 1..];
      if c == quote {
        inQuotes := !inQuotes;
      } else if c == delim && !inQuotes {
        values := values + [Trim(sb)];
        sb := "";
      } else {
        sb := sb + [c];
      }
    }
    values := values + [Trim(sb)];
  }

  // ---------------------------------------------------------------------------
  // Properties of the scanner
  // ---------------------------------------------------------------------------

  lemma {:induction false} ScanConcat(st: ScanState, a: string, b: string, delim: char, quote: char)
    ensures Scan(st, a + b, delim, quote) == Scan(Scan(st, a, delim, quote), b, delim, quote)
    decreases |a|
  {
    if |a| > 0 {
      assert (a + b)[0] == a[0] && (a + b)[1..] == a[1..] + b;
      ScanConcat(Step(st, a[0], delim, quote), a[1..], b, delim, quote);
    } else {
      assert a + b == b;
    }
  }

  lemma ScanSnoc(st: ScanState, s: string, c: char, delim: char, quote: char)
    ensures Scan(st, s + [c], delim, quote) == Step(Scan(st, s, delim, quote), c, delim, quote)
  {
    ScanConcat(st, s, [c], delim, quote);
  }

  /** The number of quote characters in `s`. */
  function QuoteCount(s: string, quote: char): nat
  {
    if |s| == 0 then 0
    else QuoteCount(s[..|s| - 1], quote) + (if s[|s| - 1] == quote then 1 else 0)
  }

  /**
    The number of delimiter characters in `s` that are preceded by an even
    number of quote characters, i.e. that stand outside quotes.
   */
  function UnquotedDelimiters(s: string, delim: char, quote: char): nat
  {
    if |s| == 0 then 0
    else
      var c := s[|s| - 1];
      UnquotedDelimiters(s[..|s| - 1], delim, quote)
      + (if c == delim && c != quote && QuoteCount(s[..|s| - 1], quote) % 2 == 0 then 1 else 0)
  }

  /**
    After scanning a prefix, the scanner is inside quotes exactly when it
    has met an odd number of quote characters, and it has closed one field
    per delimiter met outside quotes.
   */
  lemma {:induction false} ScanCounts(s: string, delim: char, quote: char)
    ensures Scan(Start, s, delim, quote).inQuotes <==> QuoteCount(s, quote) % 2 == 1
    ensures |Scan(Start, s, delim, quote).fields| == UnquotedDelimiters(s, delim, quote)
    decreases |s|
  {
    if |s| > 0 {
      var init, c := s[..|s| - 1], s[|s| - 1];
      assert s == init + [c];
      ScanCounts(init, delim, quote);
      ScanSnoc(Start, init, c, delim, quote);
    }
  }

  /**
    `parseCSVLine` returns one field more than there are delimiters outside
    quotes; in particular it never returns an empty array, and a delimiter
    inside quotes does not start a new field.
   */
  lemma SplitLineFieldCount(line: string, delim: char, quote: char)
    ensures |SplitLine(line, delim, quote)| == UnquotedDelimiters(line, delim, quote) + 1
  {
    ScanCounts(line, delim, quote);
  }

  /** Every field of the scanner is trimmed and free of quote characters. */
  ghost predicate CleanState(st: ScanState, quote: char)
  {
    && quote !in st.buf
    && forall f :: f in st.fields ==> IsTrimmed(f) && quote !in f
  }

  lemma {:induction false} ScanKeepsClean(st: ScanState, s: string, delim: char, quote: char)
    requires CleanState(st, quote)
    ensures CleanState(Scan(st, s, delim, quote), quote)
    decreases |s|
  {
    if |s| > 0 {
      var next := Step(st, s[0], delim, quote);
      if s[0] != quote && s[0] == delim && !st.inQuotes {
        if quote in Trim(st.buf) {
          TrimKeepsCharacters(st.buf, quote);
        }
      }
      assert CleanState(next, quote);
      ScanKeepsClean(next, s[1..], delim, quote);
    }
  }

  /**
    Quote characters are never copied into a field, and every field is
    trimmed.
   */
  lemma SplitLineFieldsClean(line: string, delim: char, quote: char)
    ensures forall f :: f in SplitLine(line, delim, quote) ==> IsTrimmed(f) && quote !in f
  {
    var st := Scan(Start, line, delim, quote);
    ScanKeepsClean(Start, line, delim, quote);
    if quote in Trim(st.buf) {
      TrimKeepsCharacters(st.buf, quote);
    }
  }

  // ---------------------------------------------------------------------------
  // Round trip: a line written from fields, some of them quoted
  // ---------------------------------------------------------------------------

  /** A field as it may be written in the file: bare or between quote characters. */
  datatype Cell = Bare(text: string) | Quoted(text: string)

  function Render(cell: Cell, quote: char): string
  {
    match cell
    case Bare(t) => t
    case Quoted(t) => [quote] + t + [quote]
  }

  /** The line holding the given cells separated by the delimiter. */
  function JoinCells(cells: seq<Cell>, delim: char, quote: char): string
    requires |cells| > 0
  {
    if |cells| == 1 then Render(cells[0], quote)
    else Render(cells[0], quote) + [delim] + JoinCells(cells[1..], delim, quote)
  }

  /**
    A cell that reads back as its text: trimmed, without quote characters,
    and without the delimiter unless it is quoted.
   */
  predicate WritableCell(cell: Cell, delim: char, quote: char)
  {
    IsTrimmed(cell.text) && quote !in cell.text && (cell.Bare? ==> delim !in cell.text)
  }

  function Texts(cells: seq<Cell>): (r: seq<string>)
    ensures |r| == |cells|
  {
    if |cells| == 0 then [] else [cells[0].text] + Texts(cells[1..])
  }

  lemma {:induction false} TextsAt(cells: seq<Cell>, k: nat)
    requires k < |cells|
    ensures Texts(cells)[k] == cells[k].text
    decreases k
  {
    if k > 0 {
      TextsAt(cells[1..], k - 1);
    }
  }

  lemma {:induction false} TextsSnoc(cells: seq<Cell>)
    requires |cells| > 0
    ensures Texts(cells) == Texts(cells[..|cells| - 1]) + [cells[|cells| - 1].text]
  {
    if |cells| > 1 {
      assert cells[..|cells| - 1][1..] == cells[1..][..|cells| - 2];
      TextsSnoc(cells[1..]);
    }
  }

  /** Text without quote characters goes to the buffer unchanged. */
  lemma {:induction false} ScanPlainText(st: ScanState, t: string, delim: char, quote: char)
    requires quote !in t && (st.inQuotes || delim !in t)
    ensures Scan(st, t, delim, quote) == st.(buf := st.buf + t)
    decreases |t|
  {
    if |t| > 0 {
      assert st.buf + [t[0]] + t[1..] == st.buf + t;
      ScanPlainText(Step(st, t[0], delim, quote), t[1..], delim, quote);
    } else {
      assert st.buf + t == st.buf;
    }
  }

  lemma ScanCell(fields: seq<string>, cell: Cell, delim: char, quote: char)
    requires WritableCell(cell, delim, quote) && delim != quote
    ensures Scan(ScanState(fields, "", false), Render(cell, quote), delim, quote)
            == ScanState(fields, cell.text, false)
  {
    var st := ScanState(fields, "", false);
    match cell
    case Bare(t) =>
      ScanPlainText(st, t, delim, quote);
    case Quoted(t) =>
      ScanConcat(st, [quote] + t, [quote], delim, quote);
      ScanConcat(st, [quote], t, delim, quote);
      ScanPlainText(st.(inQuotes := true), t, delim, quote);
  }

  lemma TextsOfInit(cells: seq<Cell>)
    requires |cells| > 1
    ensures Texts(cells[..|cells| - 1]) == [cells[0].text] + Texts(cells[1..][..|cells| - 2])
  {
    assert cells[..|cells| - 1][1..] == cells[1..][..|cells| - 2];
  }

  /** A cell followed by the delimiter closes one field holding the cell's text. */
  lemma ScanCellAndDelimiter(fields: seq<string>, cell: Cell, delim: char, quote: char)
    requires WritableCell(cell, delim, quote) && delim != quote
    ensures Scan(ScanState(fields, "", false), Render(cell, quote) + [delim], delim, quote)
            == ScanState(fields + [cell.text], "", false)
  {
    ScanCell(fields, cell, delim, quote);
    ScanSnoc(ScanState(fields, "", false), Render(cell, quote), delim, delim, quote);
  }

  /** The line of several cells is the first cell, the delimiter and the line of the rest. */
  lemma JoinCellsCons(cells: seq<Cell>, delim: char, quote: char)
    requires |cells| > 1
    ensures JoinCells(cells, delim, quote)
            == (Render(cells[0], quote) + [delim]) + JoinCells(cells[1..], delim, quote)
  {
  }

  lemma {:induction false} ScanJoinedCells(fields: seq<string>, cells: seq<Cell>, delim: char, quote: char)
    requires |cells| > 0 && delim != quote
    requires forall k :: 0 <= k < |cells| ==> WritableCell(cells[k], delim, quote)
    ensures Scan(ScanState(fields, "", false), JoinCells(cells, delim, quote), delim, quote)
            == ScanState(fields + Texts(cells[..|cells| - 1]), cells[|cells| - 1].text, false)
    decreases |cells|
  {
    if |cells| > 1 {
      ScanJoinedStep(fields, cells, delim, quote);
    } else {
      ScanCell(fields, cells[0], delim, quote);
      assert fields + Texts(cells[..0]) == fields;
    }
  }

  lemma {:induction false} ScanJoinedStep(fields: seq<string>, cells: seq<Cell>, delim: char, quote: char)
    requires |cells| > 1 && delim != quote
    requires forall k :: 0 <= k < |cells| ==> WritableCell(cells[k], delim, quote)
    ensures Scan(ScanState(fields, "", false), JoinCells(cells, delim, quote), delim, quote)
            == ScanState(fields + Texts(cells[..|cells| - 1]), cells[|cells| - 1].text, false)
    decreases |cells|, 0
  {
    var st := ScanState(fields, "", false);
    var head := Render(cells[0], quote) + [delim];
    var rest := JoinCells(cells[1..], delim, quote);
    var fields' := fields + [cells[0].text];
    var tail := cells[1..];
    assert tail[|tail| - 1] == cells[|cells| - 1];
    calc {
      Scan(st, JoinCells(cells, delim, quote), delim, quote);
      { JoinCellsCons(cells, delim, quote); ScanConcat(st, head, rest, delim, quote); }
      Scan(Scan(st, head, delim, quote), rest, delim, quote);
      { ScanCellAndDelimiter(fields, cells[0], delim, quote); }
      Scan(ScanState(fields', "", false), rest, delim, quote);
      { ScanJoinedCells(fields', tail, delim, quote); }
      ScanState(fields' + Texts(tail[..|tail| - 1]), cells[|cells| - 1].text, false);
      { TextsOfInit(cells); assert fields' + Texts(tail[..|tail| - 1]) == fields + Texts(cells[..|cells| - 1]); }
      ScanState(fields + Texts(cells[..|cells| - 1]), cells[|cells| - 1].text, false);
    }
  }

  /**
    Reading back a line written from trimmed, quote-free cells gives the
    cells' texts; a quoted cell may hold the delimiter.
   */
  lemma SplitJoinedCells(cells: seq<Cell>, delim: char, quote: char)
    requires |cells| > 0 && delim != quote
    requires forall k :: 0 <= k < |cells| ==> WritableCell(cells[k], delim, quote)
    ensures SplitLine(JoinCells(cells, delim, quote), delim, quote) == Texts(cells)
  {
    ScanJoinedCells([], cells, delim, quote);
    TextsSnoc(cells);
  }

  // ===========================================================================
  // parseProducers
  // ===========================================================================

  /** The end of the run of `\s` characters that starts at `i`. */
  function SkipRegexSpace(s: string, i: nat): (j: nat)
    requires i <= |s|
    ensures i <= j <= |s|
    ensures forall k :: i <= k < j ==> IsRegexSpace(s[k])
    ensures j == |s| || !IsRegexSpace(s[j])
    decreases |s| - i
  {
    if i < |s| && IsRegexSpace(s[i]) then SkipRegexSpace(s, i + 1) else i
  }

  /**
    Whether the pattern `(,| and )\s*` matches at index `i` of `s`, and if
    so where the match ends: a comma or the word "and" between two spaces,
    followed by as much `\s` as there is.
   */
  function SeparatorAt(s: string, i: nat): (r: Option<nat>)
    requires i < |s|
    ensures r.Some? ==> i < r.value <= |s|
    ensures r.Some? <==> s[i] == ',' || IsInfixAt(" and ", s, i)
  {
    if s[i] == ',' then Some(SkipRegexSpace(s, i + 1))
    else if i + 5 <= |s| && s[i..i + 5] == " and " then Some(SkipRegexSpace(s, i + 5))
    else None
  }

  /** The pattern of a producer separator occurs in `t`. */
  predicate HasSeparator(t: string)
  {
    ',' in t || exists k | 0 <= k < |t| :: IsInfixAt(" and ", t, k)
  }

  /**
    `s.split("(,| and )\\s*")` with the trailing empty strings kept: the
    pieces of `s` between the leftmost non-overlapping matches. Scanning
    has reached index `i` of the current piece, and no match starts before
    `i`, so no piece contains the pattern.
   */
  function RegexSplit(s: string, i: nat): (pieces: seq<string>)
    requires i <= |s|
    requires forall k :: 0 <= k < i ==> SeparatorAt(s, k).None?
    ensures |pieces| > 0
    ensures forall piece :: piece in pieces ==> !HasSeparator(piece)
    decreases |s|, |s| - i
  {
    if i == |s| then
      NoSeparatorInPrefix(s, i);
      assert s[..i] == s;
      [s]
    else
      match SeparatorAt(s, i)
      case Some(j) =>
        NoSeparatorInPrefix(s, i);
        [s[..i]] + RegexSplit(s[j..], 0)
      case None => RegexSplit(s, i + 1)
  }

  lemma NoSeparatorInPrefix(s: string, i: nat)
    requires i <= |s|
    requires forall k :: 0 <= k < i ==> SeparatorAt(s, k).None?
    ensures !HasSeparator(s[..i])
  {
    var t := s[..i];
    forall k | 0 <= k < i
      ensures t[k] != ',' && !IsInfixAt(" and ", t, k)
    {
      assert SeparatorAt(s, k).None?;
    }
  }

  /** The trimmed pieces, without the empty ones, in order. */
  function NonEmptyTrimmed(pieces: seq<string>): (names: seq<string>)
    ensures forall n :: n in names ==> n != "" && IsTrimmed(n)
  {
    if |pieces| == 0 then []
    else
      var t := Trim(pieces[0]);
      (if t == "" then [] else [t]) + NonEmptyTrimmed(pieces[1..])
  }

  lemma NonEmptyTrimmedCons(n: string, rest: seq<string>)
    requires n != "" && IsTrimmed(n)
    ensures NonEmptyTrimmed([n] + rest) == [n] + NonEmptyTrimmed(rest)
  {
    assert ([n] + rest)[1..] == rest;
  }

  /**
    `parseProducers`: split on the separator pattern, trim every piece and
    drop the empty ones. Every name is non-empty, trimmed, and contains
    neither a comma nor the word "and" between spaces.
   */
  function ParseProducers(s: string): (names: seq<string>)
    ensures forall n :: n in names ==> n != "" && IsTrimmed(n) && !HasSeparator(n)
  {
    var pieces := RegexSplit(s, 0);
    TrimmedPiecesHaveNoSeparator(pieces);
    NonEmptyTrimmed(pieces)
  }

  lemma TrimKeepsNoSeparator(t: string)
    requires !HasSeparator(t)
    ensures !HasSeparator(Trim(t))
  {
    var r := Trim(t);
    TrimPiece(t);
    if ',' in r {
      TrimKeepsCharacters(t, ',');
    }
    if exists k | 0 <= k < |r| :: IsInfixAt(" and ", r, k) {
      var k :| 0 <= k < |r| && IsInfixAt(" and ", r, k);
      InfixOfInfix(" and ", r, t, k, TrimOffset(t));
    }
  }

  lemma {:induction false} TrimmedPiecesHaveNoSeparator(pieces: seq<string>)
    requires forall piece :: piece in pieces ==> !HasSeparator(piece)
    ensures forall n :: n in NonEmptyTrimmed(pieces) ==> !HasSeparator(n)
  {
    if |pieces| > 0 {
      TrimKeepsNoSeparator(pieces[0]);
      TrimmedPiecesHaveNoSeparator(pieces[1..]);
    }
  }

  // ---------------------------------------------------------------------------
  // Round trip: names written as "A, B and C"
  // ---------------------------------------------------------------------------

  /** Names listed the way the awards file lists them: "A", "A and B", "A, B and C". */
  function JoinNames(names: seq<string>): string
  {
    if |names| == 0 then ""
    else if |names| == 1 then names[0]
    else if |names| == 2 then names[0] + " and " + names[1]
    else names[0] + ", " + JoinNames(names[1..])
  }

  /**
    A name that survives being listed: non-empty, trimmed, no comma, and no
    "and" between spaces even when a space follows it.
   */
  predicate ListableName(n: string)
  {
    n != "" && IsTrimmed(n) && !HasSeparator(n + " ")
  }

  lemma JoinNamesStart(names: seq<string>)
    requires |names| > 0 && names[0] != ""
    ensures |JoinNames(names)| > 0 && JoinNames(names)[0] == names[0][0]
  {
  }

  /** Skipping positions where no separator starts does not change the split. */
  lemma {:induction false} RegexSplitSkip(s: string, i: nat, e: nat)
    requires i <= e <= |s|
    requires forall k :: 0 <= k < e ==> SeparatorAt(s, k).None?
    ensures RegexSplit(s, i) == RegexSplit(s, e)
    decreases e - i
  {
    if i < e {
      RegexSplitSkip(s, i + 1, e);
    }
  }

  /** A text in which the pattern never matches is split into itself alone. */
  lemma SplitWithoutSeparator(s: string)
    requires !HasSeparator(s)
    ensures RegexSplit(s, 0) == [s]
  {
    forall k | 0 <= k < |s|
      ensures SeparatorAt(s, k).None?
    {
      assert s[k] != ',' && !IsInfixAt(" and ", s, k);
    }
    RegexSplitSkip(s, 0, |s|);
  }

  /**
    The split cuts at the leftmost match: the text before it is the first
    piece, and splitting resumes after the match, whose trailing `\s` run
    belongs to no piece.
   */
  lemma SplitAtFirstSeparator(a: string, t: string, j: nat)
    requires |t| > 0
    requires forall k :: 0 <= k < |a| ==> SeparatorAt(a + t, k).None?
    requires SeparatorAt(a + t, |a|) == Some(j)
    ensures RegexSplit(a + t, 0) == [a] + RegexSplit((a + t)[j..], 0)
  {
    RegexSplitSkip(a + t, 0, |a|);
    assert (a + t)[..|a|] == a;
  }

  /** No separator starts inside a listable name, whatever follows it. */
  lemma NoSeparatorInName(n: string, tail: string, k: nat)
    requires ListableName(n) && k < |n|
    requires tail == "" || tail[0] == ',' || tail[0] == ' '
    ensures SeparatorAt(n + tail, k).None?
  {
    var s := n + tail;
    assert s[k] == n[k];
    assert ',' !in n + " ";
    if IsInfixAt(" and ", s, k) {
      assert k + 5 <= |n| || s[|n|] == s[k..k + 5][|n| - k];
      if k + 5 <= |n| + 1 {
        assert s[k..k + 5] == (n + " ")[k..k + 5];
        assert IsInfixAt(" and ", n + " ", k);
      }
    }
  }

  /** The separator written after a name is the one the split finds there. */
  lemma SeparatorAfterName(n: string, sep: string, rest: string)
    requires sep == ", " || sep == " and "
    requires |rest| > 0 && !IsTrimSpace(rest[0])
    ensures SeparatorAt(n + sep + rest, |n|) == Some(|n| + |sep|)
  {
    var s := n + sep + rest;
    RegexSpaceIsTrimSpace(rest[0]);
    assert s[|n| + |sep|] == rest[0];
    if sep == ", " {
      assert s[|n|] == ',';
      assert SkipRegexSpace(s, |n| + 2) == |n| + 2;
    } else {
      assert s[|n|..|n| + 5] == " and ";
      assert SkipRegexSpace(s, |n| + 5) == |n| + 5;
    }
  }

  lemma SplitAfterName(n: string, sep: string, rest: string)
    requires ListableName(n) && (sep == ", " || sep == " and ")
    requires |rest| > 0 && !IsTrimSpace(rest[0])
    ensures RegexSplit(n + sep + rest, 0) == [n] + RegexSplit(rest, 0)
  {
    var s := n + sep + rest;
    assert s == n + (sep + rest);
    forall k | 0 <= k < |n|
      ensures SeparatorAt(s, k).None?
    {
      NoSeparatorInName(n, sep + rest, k);
    }
    SeparatorAfterName(n, sep, rest);
    SplitAtFirstSeparator(n, sep + rest, |n| + |sep|);
    assert s[|n| + |sep|..] == rest;
  }

  lemma SplitName(n: string)
    requires ListableName(n)
    ensures RegexSplit(n, 0) == [n]
  {
    forall k | 0 <= k < |n|
      ensures SeparatorAt(n, k).None?
    {
      NoSeparatorInName(n, "", k);
      assert n + "" == n;
    }
    RegexSplitSkip(n, 0, |n|);
  }

  lemma {:induction false} ParseJoinedNamesPieces(names: seq<string>)
    requires |names| > 0
    requires forall k :: 0 <= k < |names| ==> ListableName(names[k])
    ensures NonEmptyTrimmed(RegexSplit(JoinNames(names), 0)) == names
    decreases |names|
  {
    if |names| == 1 {
      SplitName(names[0]);
      NonEmptyTrimmedCons(names[0], []);
    } else if |names| == 2 {
      SplitName(names[1]);
      SplitAfterName(names[0], " and ", names[1]);
      NonEmptyTrimmedCons(names[1], []);
      NonEmptyTrimmedCons(names[0], [names[1]]);
      assert names == [names[0]] + [names[1]];
    } else {
      JoinNamesStart(names[1..]);
      SplitAfterName(names[0], ", ", JoinNames(names[1..]));
      ParseJoinedNamesPieces(names[1..]);
      NonEmptyTrimmedCons(names[0], RegexSplit(JoinNames(names[1..]), 0));
      assert names == [names[0]] + names[1..];
    }
  }

  /**
    `parseProducers` reads back a list written as "A, B and C": names come
    out in order, duplicates kept.
   */
  lemma ParseJoinedNames(names: seq<string>)
    requires forall k :: 0 <= k < |names| ==> ListableName(names[k])
    ensures ParseProducers(JoinNames(names)) == names
  {
    if |names| == 0 {
      assert RegexSplit("", 0) == [""];
      assert Trim("") == "";
    } else {
      ParseJoinedNamesPieces(names);
    }
  }

  /** The last character of a listing is the last character of the last name. */
  lemma {:induction false} JoinNamesEnd(names: seq<string>)
    requires |names| > 0 && names[|names| - 1] != ""
    ensures var t := JoinNames(names); var n := names[|names| - 1];
            |t| > 0 && t[|t| - 1] == n[|n| - 1]
    decreases |names|
  {
    if |names| > 2 {
      JoinNamesEnd(names[1..]);
    }
  }

  /** A listing of non-empty trimmed names is trimmed. */
  lemma JoinNamesTrimmed(names: seq<string>)
    requires forall k :: 0 <= k < |names| ==> names[k] != "" && IsTrimmed(names[k])
    ensures IsTrimmed(JoinNames(names))
  {
    if |names| > 0 {
      JoinNamesStart(names);
      JoinNamesEnd(names);
    }
  }

  /** A character of none of the names, nor of the separators, is not in the listing. */
  lemma {:induction false} JoinNamesAvoids(names: seq<string>, c: char)
    requires c !in ", and "
    requires forall k :: 0 <= k < |names| ==> c !in names[k]
    ensures c !in JoinNames(names)
    decreases |names|
  {
    if |names| > 2 {
      JoinNamesAvoids(names[1..], c);
    }
  }

  // ===========================================================================
  // readMoviesFromCSV
  // ===========================================================================

  /** What the loop of `readMoviesFromCSV` makes of one line after the header. */
  datatype RowOutcome =
    | BlankLine                    // only trim-space characters: skipped
    | TooFewFields(count: nat)     // fewer than five values: skipped
    | MalformedYear(text: string)  // `Integer.parseInt` threw: logged, only this line skipped
    | Parsed(movie: Movie)

  /** The number of values a line needs to become a movie. */
  const MinFields: nat := 5

  /** One line after the header, read into a movie or the reason it is skipped. */
  function ConvertRow(line: string, delim: char, quote: char): (outcome: RowOutcome)
  {
    if Trim(line) == "" then BlankLine
    else
      var values := SplitLine(line, delim, quote);
      if |values| < MinFields then TooFewFields(|values|)
      else
        match ParseInt(Trim(values[0]))
        case None => MalformedYear(values[0])
        case Some(year) =>
          Parsed(Movie(year, Trim(values[1]), Trim(values[2]), ParseProducers(values[3]),
                       EqualsIgnoreCase("yes", Trim(values[4]))))
  }

  /** The movie a line contributes: none unless it was read. */
  function Kept(outcome: RowOutcome): seq<Movie>
  {
    if outcome.Parsed? then [outcome.movie] else []
  }

  /** The movies among the outcomes of the lines, in file order. */
  function Accepted(outcomes: seq<RowOutcome>): (movies: seq<Movie>)
    ensures |movies| <= |outcomes|
  {
    if |outcomes| == 0 then []
    else Accepted(outcomes[..|outcomes| - 1]) + Kept(outcomes[|outcomes| - 1])
  }

  /** What the loop makes of each of the given lines. */
  function Outcomes(rows: seq<string>, delim: char, quote: char): (r: seq<RowOutcome>)
    ensures |r| == |rows|
  {
    if |rows| == 0 then []
    else Outcomes(rows[..|rows| - 1], delim, quote) + [ConvertRow(rows[|rows| - 1], delim, quote)]
  }

  lemma AcceptedSnoc(outcomes: seq<RowOutcome>, last: RowOutcome)
    ensures Accepted(outcomes + [last]) == Accepted(outcomes) + Kept(last)
  {
    assert (outcomes + [last])[..|outcomes|] == outcomes;
  }

  lemma OutcomesSnoc(rows: seq<string>, row: string, delim: char, quote: char)
    ensures Outcomes(rows + [row], delim, quote) == Outcomes(rows, delim, quote) + [ConvertRow(row, delim, quote)]
  {
    assert (rows + [row])[..|rows|] == rows;
  }

  /** One more line after the header adds what its outcome keeps. */
  lemma LoadStep(lines: seq<string>, i: nat, delim: char, quote: char)
    requires 1 <= i < |lines|
    ensures Accepted(Outcomes(lines[1..i + 1], delim, quote))
            == Accepted(Outcomes(lines[1..i], delim, quote)) + Kept(ConvertRow(lines[i], delim, quote))
  {
    assert lines[1..i + 1] == lines[1..i] + [lines[i]];
    OutcomesSnoc(lines[1..i], lines[i], delim, quote);
    AcceptedSnoc(Outcomes(lines[1..i], delim, quote), ConvertRow(lines[i], delim, quote));
  }

  /** `readMoviesFromCSV` on the lines of a file: the first line is the header. */
  function LoadMovies(lines: seq<string>, delim: char, quote: char): (movies: seq<Movie>)
    ensures |lines| <= 1 ==> movies == []
    ensures |lines| > 0 ==> |movies| <= |lines| - 1
  {
    if |lines| == 0 then [] else Accepted(Outcomes(lines[1..], delim, quote))
  }

  /**
    The body of the loop of `readMoviesFromCSV` on one line: the movie it
    adds, or none when the line is blank, too short or has a malformed year.
   */
  method ReadRow(line: string, delim: char, quote: char) returns (row: Option<Movie>)
    ensures row.Some? <==> ConvertRow(line, delim, quote).Parsed?
    ensures row.Some? ==> ConvertRow(line, delim, quote) == Parsed(row.value)
  {
    if Trim(line) == "" {
      return None;
    }
    var values := ParseCsvLine(line, delim, quote);
    if |values| < MinFields {
      return None;
    }
    var year := ParseInt(Trim(values[0]));
    if year.None? {
      return None;
    }
    var movie := Movie(year.value, Trim(values[1]), Trim(values[2]),
                       ParseProducers(values[3]), EqualsIgnoreCase("yes", Trim(values[4])));
    return Some(movie);
  }

  /** The loop of `readMoviesFromCSV`, one line at a time after the header. */
  method ReadMoviesFromCsv(lines: seq<string>, delim: char, quote: char) returns (movies: seq<Movie>)
    ensures movies == LoadMovies(lines, delim, quote)
  {
    movies := [];
    if |lines| == 0 {
      return;
    }
    var i := 1;
    while i < |lines|
      invariant 1 <= i <= |lines|
      invariant movies == Accepted(Outcomes(lines[1..i], delim, quote))
    {
      var row := ReadRow(lines[i], delim, quote);
      LoadStep(lines, i, delim, quote);
      if row.Some? {
        movies := movies + [row.value];
      }
      i := i + 1;
    }
    assert lines[1..i] == lines[1..];
  }

  // ---------------------------------------------------------------------------
  // Properties of the loader
  // ---------------------------------------------------------------------------

  lemma {:induction false} AcceptedConcat(a: seq<RowOutcome>, b: seq<RowOutcome>)
    ensures Accepted(a + b) == Accepted(a) + Accepted(b)
    decreases |b|
  {
    if |b| == 0 {
      assert a + b == a;
    } else {
      var b' := b[..|b| - 1];
      assert (a + b)[..|a + b| - 1] == a + b';
      assert (a + b)[|a + b| - 1] == b[|b| - 1];
      AcceptedConcat(a, b');
    }
  }

  lemma {:induction false} AcceptedMembership(outcomes: seq<RowOutcome>, m: Movie)
    ensures m in Accepted(outcomes) <==> Parsed(m) in outcomes
    decreases |outcomes|
  {
    if |outcomes| > 0 {
      var init := outcomes[..|outcomes| - 1];
      AcceptedMembership(init, m);
      assert outcomes == init + [outcomes[|outcomes| - 1]];
    }
  }

  lemma {:induction false} OutcomesConcat(a: seq<string>, b: seq<string>, delim: char, quote: char)
    ensures Outcomes(a + b, delim, quote) == Outcomes(a, delim, quote) + Outcomes(b, delim, quote)
    decreases |b|
  {
    if |b| == 0 {
      assert a + b == a;
    } else {
      var b' := b[..|b| - 1];
      assert a + b == (a + b') + [b[|b| - 1]];
      OutcomesSnoc(a + b', b[|b| - 1], delim, quote);
      OutcomesSnoc(b', b[|b| - 1], delim, quote);
      assert b == b' + [b[|b| - 1]];
      OutcomesConcat(a, b', delim, quote);
    }
  }

  lemma {:induction false} OutcomesAt(rows: seq<string>, i: nat, delim: char, quote: char)
    requires i < |rows|
    ensures Outcomes(rows, delim, quote)[i] == ConvertRow(rows[i], delim, quote)
    decreases |rows|
  {
    if i < |rows| - 1 {
      var init := rows[..|rows| - 1];
      OutcomesAt(init, i, delim, quote);
      assert init[i] == rows[i];
    }
  }

  /** An outcome that keeps no movie has no effect on the others. */
  lemma SkippedOutcomeIsolated(x: seq<RowOutcome>, o: RowOutcome, y: seq<RowOutcome>)
    requires !o.Parsed?
    ensures Accepted(x + [o] + y) == Accepted(x + y)
  {
    AcceptedConcat(x + [o], y);
    AcceptedSnoc(x, o);
    AcceptedConcat(x, y);
  }

  /** The outcomes of the lines after the header, split around one line. */
  lemma OutcomesAround(a: seq<string>, row: string, b: seq<string>, delim: char, quote: char)
    requires |a| > 0
    ensures Outcomes((a + [row] + b)[1..], delim, quote)
            == Outcomes(a[1..], delim, quote) + [ConvertRow(row, delim, quote)] + Outcomes(b, delim, quote)
    ensures Outcomes((a + b)[1..], delim, quote) == Outcomes(a[1..], delim, quote) + Outcomes(b, delim, quote)
  {
    var tail := a[1..];
    assert (a + [row] + b)[1..] == tail + [row] + b;
    assert (a + b)[1..] == tail + b;
    OutcomesConcat(tail + [row], b, delim, quote);
    OutcomesSnoc(tail, row, delim, quote);
    OutcomesConcat(tail, b, delim, quote);
  }

  /** A line after the header that is not read into a movie has no effect on the others. */
  lemma SkippedRowIsolated(a: seq<string>, row: string, b: seq<string>, delim: char, quote: char)
    requires |a| > 0
    requires !ConvertRow(row, delim, quote).Parsed?
    ensures LoadMovies(a + [row] + b, delim, quote) == LoadMovies(a + b, delim, quote)
  {
    OutcomesAround(a, row, b, delim, quote);
    SkippedOutcomeIsolated(Outcomes(a[1..], delim, quote), ConvertRow(row, delim, quote), Outcomes(b, delim, quote));
  }

  /** The movie of a parsed outcome is among the accepted ones. */
  lemma {:induction false} AcceptedAt(outcomes: seq<RowOutcome>, j: nat, m: Movie)
    requires j < |outcomes| && outcomes[j] == Parsed(m)
    ensures m in Accepted(outcomes)
    decreases |outcomes|
  {
    var init := outcomes[..|outcomes| - 1];
    if j < |outcomes| - 1 {
      assert init[j] == outcomes[j];
      AcceptedAt(init, j, m);
    }
  }

  lemma AfterHeader(lines: seq<string>, i: nat)
    requires 1 <= i < |lines|
    ensures lines[1..][i - 1] == lines[i]
  {
  }

  /** `OutcomesAt` for a line named apart from its position. */
  lemma OutcomesAtRow(rows: seq<string>, k: nat, row: string, delim: char, quote: char)
    requires k < |rows| && rows[k] == row
    ensures Outcomes(rows, delim, quote)[k] == ConvertRow(row, delim, quote)
  {
    OutcomesAt(rows, k, delim, quote);
  }

  /** The outcome of line `i` of the file is outcome `i - 1` of the lines after the header. */
  lemma OutcomeOfLine(lines: seq<string>, i: nat, delim: char, quote: char)
    requires 1 <= i < |lines|
    ensures Outcomes(lines[1..], delim, quote)[i - 1] == ConvertRow(lines[i], delim, quote)
  {
    var rows := lines[1..];
    var row := lines[i];
    AfterHeader(lines, i);
    OutcomesAtRow(rows, i - 1, row, delim, quote);
  }

  /** A line after the header that reads as a movie puts that movie in the list. */
  lemma LoadedFromLine(lines: seq<string>, i: nat, m: Movie, delim: char, quote: char)
    requires 1 <= i < |lines| && ConvertRow(lines[i], delim, quote) == Parsed(m)
    ensures m in LoadMovies(lines, delim, quote)
  {
    OutcomeOfLine(lines, i, delim, quote);
    LoadedAt(lines, i - 1, m, delim, quote);
  }

  lemma LoadedAt(lines: seq<string>, j: nat, m: Movie, delim: char, quote: char)
    requires j + 1 < |lines| && Outcomes(lines[1..], delim, quote)[j] == Parsed(m)
    ensures m in LoadMovies(lines, delim, quote)
  {
    AcceptedAt(Outcomes(lines[1..], delim, quote), j, m);
  }

  /** A loaded movie comes from some line after the header. */
  lemma LineOfLoaded(lines: seq<string>, m: Movie, delim: char, quote: char)
    requires m in LoadMovies(lines, delim, quote)
    ensures exists i :: 1 <= i < |lines| && ConvertRow(lines[i], delim, quote) == Parsed(m)
  {
    var os := Outcomes(lines[1..], delim, quote);
    AcceptedMembership(os, m);
    var j :| 0 <= j < |os| && os[j] == Parsed(m);
    OutcomeOfLine(lines, j + 1, delim, quote);
    assert ConvertRow(lines[j + 1], delim, quote) == Parsed(m);
  }

  /** A movie is loaded exactly when some line after the header reads as that movie. */
  lemma LoadMoviesMembership(lines: seq<string>, m: Movie, delim: char, quote: char)
    ensures m in LoadMovies(lines, delim, quote)
            <==> exists i :: 1 <= i < |lines| && ConvertRow(lines[i], delim, quote) == Parsed(m)
  {
    if m in LoadMovies(lines, delim, quote) {
      LineOfLoaded(lines, m, delim, quote);
    }
    if exists i :: 1 <= i < |lines| && ConvertRow(lines[i], delim, quote) == Parsed(m) {
      var i :| 1 <= i < |lines| && ConvertRow(lines[i], delim, quote) == Parsed(m);
      LoadedFromLine(lines, i, m, delim, quote);
    }
  }

  /**
    What a movie read from a line says about the line: it was not blank, it
    had at least five values, the year is the first value read as an `int`, title and studio
    are the next two values, the producers come from the fourth, and the
    movie is a winner exactly when the fifth reads "yes" in any case.
   */
  lemma ParsedRowFacts(line: string, delim: char, quote: char)
    requires ConvertRow(line, delim, quote).Parsed?
    ensures var m := ConvertRow(line, delim, quote).movie;
            var values := SplitLine(line, delim, quote);
            && UnquotedDelimiters(line, delim, quote) >= MinFields - 1
            && Trim(line) != ""
            && ParseInt(values[0]) == Some(m.year)
            && m.title == values[1] && m.studios == values[2]
            && quote !in m.title && quote !in m.studios
            && m.producers == ParseProducers(values[3])
            && (forall n :: n in m.producers ==> n != "" && IsTrimmed(n) && !HasSeparator(n))
            && (m.winner <==> values[4] in YesSpellings)
  {
    var values := SplitLine(line, delim, quote);
    SplitLineFieldCount(line, delim, quote);
    SplitLineFieldsClean(line, delim, quote);
    YesIgnoringCase(values[4]);
  }

  // Round trip: a movie written as a line and read back
  // ---------------------------------------------------------------------------

  /** A movie that can be written as a line and read back unchanged. */
  predicate Writable(m: Movie, quote: char)
  {
    && IsTrimmed(m.title) && quote !in m.title
    && IsTrimmed(m.studios) && quote !in m.studios
    && forall k :: 0 <= k < |m.producers| ==> ListableName(m.producers[k]) && quote !in m.producers[k]
  }

  /** The cells of the line for a movie: the free-text fields quoted. */
  function RowCells(m: Movie): seq<Cell>
  {
    [Bare(ShowInt(m.year)), Quoted(m.title), Quoted(m.studios), Quoted(JoinNames(m.producers)),
     Bare(if m.winner then "yes" else "no")]
  }

  /** The line the awards file holds for a movie. */
  function FormatRow(m: Movie, delim: char, quote: char): string
  {
    JoinCells(RowCells(m), delim, quote)
  }

  /**
    Delimiter and quote characters that never clash with what a line holds
    outside its quoted fields (a year and "yes" or "no"); the quote
    character must also stay out of the producers' separators.
   */
  predicate Marks(delim: char, quote: char)
  {
    delim != quote && delim !in "-0123456789yesno" && quote !in "-0123456789yesno, and"
  }

  lemma ShowNatDigitsOnly(n: nat, c: char)
    requires !IsDigit(c)
    ensures c !in ShowNat(n)
  {
  }

  lemma ShowIntWritable(y: Int32, delim: char, quote: char)
    requires Marks(delim, quote)
    ensures WritableCell(Bare(ShowInt(y)), delim, quote)
    ensures ShowInt(y)[0] == '-' || IsDigit(ShowInt(y)[0])
  {
    var n: nat := if y < 0 then -(y as int) else y;
    ShowNatDigitsOnly(n, delim);
    ShowNatDigitsOnly(n, quote);
    if y < 0 {
      assert ShowInt(y) == ['-'] + ShowNat(n);
    }
  }

  /** The values read from the line of a movie are the texts of its cells. */
  lemma FormatRowValues(m: Movie, delim: char, quote: char)
    requires Marks(delim, quote) && Writable(m, quote)
    ensures var values := SplitLine(FormatRow(m, delim, quote), delim, quote);
            && |values| == MinFields
            && values[0] == ShowInt(m.year) && values[1] == m.title && values[2] == m.studios
            && values[3] == JoinNames(m.producers) && values[4] == (if m.winner then "yes" else "no")
  {
    var cells := RowCells(m);
    ShowIntWritable(m.year, delim, quote);
    JoinNamesTrimmed(m.producers);
    JoinNamesAvoids(m.producers, quote);
    forall k | 0 <= k < |cells|
      ensures WritableCell(cells[k], delim, quote)
    {
    }
    SplitJoinedCells(cells, delim, quote);
    TextsAt(cells, 0);
    TextsAt(cells, 1);
    TextsAt(cells, 2);
    TextsAt(cells, 3);
    TextsAt(cells, 4);
  }

  /** The line of a movie starts with the year, so it is not blank. */
  lemma FormatRowNotBlank(m: Movie, delim: char, quote: char)
    requires Marks(delim, quote)
    ensures Trim(FormatRow(m, delim, quote)) != ""
  {
    var line := FormatRow(m, delim, quote);
    ShowIntWritable(m.year, delim, quote);
    assert line[0] == ShowInt(m.year)[0];
    TrimKeepsVisibleStart(line);
  }

  /** Writing a movie as a line and reading the line back gives the movie. */
  lemma RowRoundTrip(m: Movie, delim: char, quote: char)
    requires Marks(delim, quote) && Writable(m, quote)
    ensures ConvertRow(FormatRow(m, delim, quote), delim, quote) == Parsed(m)
  {
    FormatRowValues(m, delim, quote);
    FormatRowNotBlank(m, delim, quote);
    ShowIntWritable(m.year, delim, quote);
    ParseShowRoundTrip(m.year);
    ParseJoinedNames(m.producers);
  }

  /** The lines for a sequence of movies, in order. */
  function FormatRows(movies: seq<Movie>, delim: char, quote: char): (rows: seq<string>)
    ensures |rows| == |movies|
  {
    if |movies| == 0 then []
    else FormatRows(movies[..|movies| - 1], delim, quote) + [FormatRow(movies[|movies| - 1], delim, quote)]
  }

  lemma FormatRowsSnoc(movies: seq<Movie>, m: Movie, delim: char, quote: char)
    ensures FormatRows(movies + [m], delim, quote) == FormatRows(movies, delim, quote) + [FormatRow(m, delim, quote)]
  {
    assert (movies + [m])[..|movies|] == movies;
  }

  /** Appending the line of a writable movie appends the movie to what is read. */
  lemma ReadFormattedSnoc(movies: seq<Movie>, m: Movie, delim: char, quote: char)
    requires Marks(delim, quote) && Writable(m, quote)
    ensures Accepted(Outcomes(FormatRows(movies + [m], delim, quote), delim, quote))
            == Accepted(Outcomes(FormatRows(movies, delim, quote), delim, quote)) + [m]
  {
    var rows := FormatRows(movies, delim, quote);
    var line := FormatRow(m, delim, quote);
    FormatRowsSnoc(movies, m, delim, quote);
    OutcomesSnoc(rows, line, delim, quote);
    RowRoundTrip(m, delim, quote);
    AcceptedSnoc(Outcomes(rows, delim, quote), Parsed(m));
  }

  lemma {:induction false} ReadFormattedRows(movies: seq<Movie>, delim: char, quote: char)
    requires Marks(delim, quote)
    requires forall k :: 0 <= k < |movies| ==> Writable(movies[k], quote)
    ensures Accepted(Outcomes(FormatRows(movies, delim, quote), delim, quote)) == movies
    decreases |movies|
  {
    if |movies| > 0 {
      var init := movies[..|movies| - 1];
      var last := movies[|movies| - 1];
      assert movies == init + [last];
      ReadFormattedRows(init, delim, quote);
      ReadFormattedSnoc(init, last, delim, quote);
    }
  }

  /** Writing a header and movies as lines and loading them gives the movies back. */
  lemma LoadRoundTrip(header: string, movies: seq<Movie>, delim: char, quote: char)
    requires Marks(delim, quote)
    requires forall k :: 0 <= k < |movies| ==> Writable(movies[k], quote)
    ensures LoadMovies([header] + FormatRows(movies, delim, quote), delim, quote) == movies
  {
    var rows := FormatRows(movies, delim, quote);
    assert ([header] + rows)[1..] == rows;
    ReadFormattedRows(movies, delim, quote);
  }

  // ---------------------------------------------------------------------------
  // An example producers field
  // ---------------------------------------------------------------------------

  /** Text without the letter n cannot hold " and ". */
  lemma NoAndWithoutN(t: string)
    requires 'n' !in t && ',' !in t
    ensures !HasSeparator(t)
  {
    forall k | 0 <= k < |t|
      ensures !IsInfixAt(" and ", t, k)
    {
      if k + 5 <= |t| {
        assert t[k..k + 5][2] == t[k + 2];
      }
    }
  }

  /** Two producers joined by "and". */
  lemma ExampleProducers()
    ensures ParseProducers("Producer A and Producer B") == ["Producer A", "Producer B"]
  {
    NoAndWithoutN("Producer A ");
    NoAndWithoutN("Producer B ");
    assert "Producer A" + " " == "Producer A ";
    assert "Producer B" + " " == "Producer B ";
    assert JoinNames(["Producer A", "Producer B"]) == "Producer A and Producer B";
    ParseJoinedNames(["Producer A", "Producer B"]);
  }
  /** A comma without a space after it, and extra space after "and", still separate names. */
  lemma ExampleIrregularSeparators()
    ensures ParseProducers("A,B and  C") == ["A", "B", "C"]
  {
    IrregularPieces();
    assert Trim("A") == "A" && Trim("B") == "B" && Trim("C") == "C";
    NonEmptyTrimmedCons("C", []);
    NonEmptyTrimmedCons("B", ["C"]);
    NonEmptyTrimmedCons("A", ["B", "C"]);
    assert ["A"] + (["B"] + ["C"]) == ["A", "B", "C"];
  }

  lemma IrregularPieces()
    ensures RegexSplit("A,B and  C", 0) == ["A", "B", "C"]
  {
    var s := "A,B and  C";
    assert s == "A" + ",B and  C";
    assert SeparatorAt(s, 1) == Some(2);
    SplitAtFirstSeparator("A", ",B and  C", 2);
    assert s[2..] == "B and  C";
    IrregularTail();
  }

  lemma IrregularTail()
    ensures RegexSplit("B and  C", 0) == ["B", "C"]
  {
    var u := "B and  C";
    assert u == "B" + " and  C";
    assert u[1..6] == " and ";
    assert SkipRegexSpace(u, 6) == 7;
    SplitAtFirstSeparator("B", " and  C", 7);
    assert u[7..] == "C";
    SplitWithoutSeparator("C");
  }


}
