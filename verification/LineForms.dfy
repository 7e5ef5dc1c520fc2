/** The forms a line may take: which characters separate, which letters count in either case, and the examples the
    parser's documentation gives. */
module LineForms {
  import opened Bits
  import opened Wrappers
  import opened Decimals
  import opened LineParsers

  // ----- Which characters separate -----

  /** A word holds no comma, space, tab, carriage return or newline. */
  predicate Solid(word: string) {
    word != [] && ',' !in word && ' ' !in word && '\t' !in word && '\r' !in word && '\n' !in word
  }

  /** A gap holds nothing else. */
  predicate Gap(run: string) {
    forall c :: c in run ==> c == ',' || c == ' ' || c == '\t' || c == '\r' || c == '\n'
  }

  predicate AllSolid(words: seq<string>) {
    forall i :: 0 <= i < |words| ==> Solid(words[i])
  }

  /** Gaps before, between and behind some words; those between are not empty. */
  predicate Gaps(gaps: seq<string>, words: seq<string>) {
    && |gaps| == |words| + 1
    && (forall i :: 0 <= i < |gaps| ==> Gap(gaps[i]))
    && (forall i :: 0 < i < |words| ==> gaps[i] != [])
  }

  /** The words laid out with the gaps. */
  function Spread(words: seq<string>, gaps: seq<string>): string
    requires |gaps| == |words| + 1
  {
    if words == [] then gaps[0] else gaps[0] + words[0] + Spread(words[1..], gaps[1..])
  }

  lemma {:induction false} SkipGap(run: string, rest: string)
    requires Gap(run)
    ensures Tokens(run + rest) == Tokens(rest)
  {
    if run == [] {
      assert run + rest == rest;
    } else {
      assert run[0] in run && forall c :: c in run[1..] ==> c in run;
      assert (run + rest)[1..] == run[1..] + rest;
      SkipGap(run[1..], rest);
    }
  }

  lemma SolidIsWord(word: string)
    requires Solid(word)
    ensures IsWord(word)
  {
    forall i | 0 <= i < |word| ensures !IsSeparator(word[i]) {
      assert word[i] in word;
    }
  }

  lemma TakeLast(word: string)
    requires Solid(word)
    ensures Tokens(word) == [word]
  {
    SolidIsWord(word);
    LastWord(word);
  }

  lemma TakeBefore(word: string, c: char, later: string)
    requires Solid(word) && Gap([c])
    ensures Tokens(word + ([c] + later)) == [word] + Tokens([c] + later)
  {
    assert c in [c];
    SolidIsWord(word);
    WordThenSeparator(word, c, later);
    SkipGap([c], later);
    assert word + [c] + later == word + ([c] + later);
  }

  /** A word before a gap, or before the end, is a token. */
  lemma TakeWord(word: string, rest: string)
    requires Solid(word) && (rest == [] || Gap(rest[..1]))
    ensures Tokens(word + rest) == [word] + Tokens(rest)
  {
    if rest == [] {
      TakeLast(word);
      assert word + rest == word;
    } else {
      var c, later := rest[0], rest[1..];
      assert rest[..1] == [c] && rest == [c] + later;
      TakeBefore(word, c, later);
    }
  }

  lemma SpreadStarts(words: seq<string>, gaps: seq<string>)
    requires |gaps| == |words| + 1 && Gap(gaps[0]) && (gaps[0] == [] ==> words == [])
    ensures Spread(words, gaps) == [] || Gap(Spread(words, gaps)[..1])
  {
    if gaps[0] != [] {
      assert Spread(words, gaps)[0] == gaps[0][0] && gaps[0][0] in gaps[0];
    }
  }

  /** However words are spread over a line, with any mix of commas, spaces, tabs and line ends between, before and
      behind them, the tokens are exactly the words. */
  lemma {:induction false} TokensOfSpread(words: seq<string>, gaps: seq<string>)
    requires AllSolid(words) && Gaps(gaps, words)
    ensures Tokens(Spread(words, gaps)) == words
    decreases |words|
  {
    if words == [] {
      SkipGap(gaps[0], []);
      assert gaps[0] + [] == gaps[0];
    } else {
      var rest := Spread(words[1..], gaps[1..]);
      assert Spread(words, gaps) == gaps[0] + (words[0] + rest);
      SkipGap(gaps[0], words[0] + rest);
      TokensOfSpread(words[1..], gaps[1..]);
      SpreadStarts(words[1..], gaps[1..]);
      TakeWord(words[0], rest);
    }
  }

  /** The word would start a comment at the head of a line. */
  predicate OpensComment(word: string) {
    word != [] && (word[0] == '#' || (|word| >= 2 && word[0] == '/' && word[1] == '/'))
  }

  lemma SpreadIsNoComment(words: seq<string>, gaps: seq<string>)
    requires words != [] && AllSolid(words) && Gaps(gaps, words) && !OpensComment(words[0])
    ensures !IsComment(Spread(words, gaps))
  {
    var line := Spread(words, gaps);
    var rest := Spread(words[1..], gaps[1..]);
    if gaps[0] != [] {
      assert line[0] == gaps[0][0] && gaps[0][0] in gaps[0];
    } else {
      assert line == words[0] + rest && line[0] == words[0][0];
      SpreadStarts(words[1..], gaps[1..]);
      if |words[0]| == 1 && |line| >= 2 {
        assert line[1] == rest[0] && rest[0] in rest[..1];
      }
    }
  }

  /** A line says its words in whatever way they are spread, so every theorem on what a line says holds for
      space-separated lines as for comma-separated ones. */
  lemma SpreadSays(kind: string, fields: seq<string>, gaps: seq<string>)
    requires AllSolid([kind] + fields) && Gaps(gaps, [kind] + fields)
    requires kind != "ORDER" && kind != "order" && !OpensComment(kind)
    ensures Says(Spread([kind] + fields, gaps), kind, fields)
  {
    TokensOfSpread([kind] + fields, gaps);
    SpreadIsNoComment([kind] + fields, gaps);
  }

  lemma OrderedSpreadSays(order: string, kind: string, fields: seq<string>, gaps: seq<string>)
    requires order == "ORDER" || order == "order"
    requires AllSolid([order] + ([kind] + fields)) && Gaps(gaps, [order] + ([kind] + fields))
    requires kind != "ORDER" && kind != "order"
    ensures Says(Spread([order] + ([kind] + fields), gaps), kind, fields)
  {
    TokensOfSpread([order] + ([kind] + fields), gaps);
    SpreadIsNoComment([order] + ([kind] + fields), gaps);
  }

  /** Two layouts of the same words parse alike. */
  lemma LayoutDoesNotMatter(words: seq<string>, gaps: seq<string>, gaps': seq<string>, seqNo: Word, nowNs: nat)
    requires words != [] && AllSolid(words) && !OpensComment(words[0]) && Gaps(gaps, words) && Gaps(gaps', words)
    ensures ParseLine(Spread(words, gaps), seqNo, nowNs) == ParseLine(Spread(words, gaps'), seqNo, nowNs)
  {
    TokensOfSpread(words, gaps);
    TokensOfSpread(words, gaps');
    SpreadIsNoComment(words, gaps);
    SpreadIsNoComment(words, gaps');
  }

  /** Words with one separator between them and an ending behind. */
  function Joined(words: seq<string>, c: string, end: string): string
    requires words != []
  {
    if |words| == 1 then words[0] + end else words[0] + c + Joined(words[1..], c, end)
  }

  function Evenly(n: nat, c: string, end: string): (gaps: seq<string>)
    requires n > 0
    ensures |gaps| == n + 1
  {
    [""] + seq(n - 1, _ => c) + [end]
  }

  lemma {:induction false} JoinedIsSpread(words: seq<string>, c: string, end: string)
    requires words != []
    ensures Joined(words, c, end) == Spread(words, Evenly(|words|, c, end))
    decreases |words|
  {
    var n := |words|;
    var gaps := Evenly(n, c, end);
    assert "" + words[0] == words[0];
    if n == 1 {
      assert Spread(words[1..], gaps[1..]) == end;
    } else {
      JoinedIsSpread(words[1..], c, end);
      assert gaps[1..][1..] == Evenly(n - 1, c, end)[1..];
      SpreadFrom(words[1..], gaps[1..], Evenly(n - 1, c, end));
      assert words[0] + (c + Joined(words[1..], c, end)) == words[0] + c + Joined(words[1..], c, end);
    }
  }

  /** The first gap is what a line starts with. */
  lemma SpreadFrom(words: seq<string>, gaps: seq<string>, gaps': seq<string>)
    requires |gaps| == |gaps'| == |words| + 1 && gaps[1..] == gaps'[1..] && gaps'[0] == "" && words != []
    ensures Spread(words, gaps) == gaps[0] + Spread(words, gaps')
  {
    var rest := Spread(words[1..], gaps[1..]);
    assert gaps[0] + words[0] + rest == gaps[0] + ("" + words[0] + rest);
  }

  lemma EvenGaps(words: seq<string>, c: string, end: string)
    requires words != [] && (c == "," || c == " " || c == "\t") && (end == "" || end == "\n")
    ensures Gaps(Evenly(|words|, c, end), words)
  {
  }

  lemma {:induction false} CsvIsJoined(columns: seq<string>)
    requires columns != []
    ensures CsvLine(columns) == Joined(columns, ",", "\n")
  {
    if |columns| > 1 {
      CsvIsJoined(columns[1..]);
    }
  }

  /** What a comma-separated line parses to, any other layout of its columns parses to. */
  lemma AsCommaSeparated(columns: seq<string>, gaps: seq<string>, seqNo: Word, nowNs: nat)
    requires columns != [] && AllSolid(columns) && !OpensComment(columns[0]) && Gaps(gaps, columns)
    ensures ParseLine(Spread(columns, gaps), seqNo, nowNs) == ParseLine(CsvLine(columns), seqNo, nowNs)
  {
    CsvIsJoined(columns);
    JoinedIsSpread(columns, ",", "\n");
    EvenGaps(columns, ",", "\n");
    LayoutDoesNotMatter(columns, gaps, Evenly(|columns|, ",", "\n"), seqNo, nowNs);
  }

  // ----- Which letters count -----

  /** The letters of the message type and of the side count in either case, and no other character stands for them. */
  lemma EitherCase(c: char)
    ensures ToUpper(c) == 'A' <==> c == 'A' || c == 'a'
    ensures ToUpper(c) == 'X' <==> c == 'X' || c == 'x'
    ensures ToUpper(c) == 'C' <==> c == 'C' || c == 'c'
    ensures ToUpper(c) == 'E' <==> c == 'E' || c == 'e'
    ensures ToUpper(c) == 'B' <==> c == 'B' || c == 'b'
    ensures ToUpper(c) == 'S' <==> c == 'S' || c == 's'
  {
  }

  /** A line of any other type is refused. */
  lemma UnknownTypeRefused(line: string, kind: string, fields: seq<string>, seqNo: Word, nowNs: nat)
    requires Says(line, kind, fields) && kind != []
    requires kind[0] !in "AaXxCcEe"
    ensures ParseLine(line, seqNo, nowNs) == None
  {
    var tokens := Tokens(line);
    var rest := if tokens[0] == "ORDER" || tokens[0] == "order" then tokens[1..] else tokens;
    assert rest == [kind] + fields && rest[0] == kind;
    EitherCase(kind[0]);
  }

  // ----- The documented forms with spaces -----

  lemma PrintedAreSolid(n: int, price: real)
    ensures Solid(PrintInt(n)) && Solid(PrintPrice(price))
  {
    WordIsSolid(PrintInt(n));
    WordIsSolid(PrintPrice(price));
    PrintedAreWords(n, price);
  }

  lemma WordIsSolid(word: string)
    ensures IsWord(word) && word != [] ==> Solid(word)
  {
    if IsWord(word) {
      forall c | c in word ensures !IsSeparator(c) {
        var i :| 0 <= i < |word| && word[i] == c;
      }
    }
  }

  /** Words with one kind of separator between them. */
  lemma JoinedSays(kind: string, fields: seq<string>, c: string)
    requires AllSolid([kind] + fields) && (c == "," || c == " " || c == "\t")
    requires kind != "ORDER" && kind != "order" && !OpensComment(kind)
    ensures Says(Joined([kind] + fields, c, ""), kind, fields)
  {
    var words := [kind] + fields;
    JoinedIsSpread(words, c, "");
    EvenGaps(words, c, "");
    SpreadSays(kind, fields, Evenly(|words|, c, ""));
  }

  /** `A id side ticks quantity`, with spaces. */
  lemma SpacedAddIff(orderId: nat, side: string, ticks: int, qty: int, seqNo: Word, nowNs: nat)
    requires side == "B" || side == "S"
    ensures var line := Joined(["A"] + [PrintInt(orderId), side, PrintInt(ticks), PrintInt(qty)], " ", "");
      IsAdd(ParseLine(line, seqNo, nowNs), seqNo, nowNs, orderId, side[0], ticks, qty) <==>
        orderId < WORD && 0 < ticks < 0x8000_0000 && 0 < qty < 0x8000_0000
  {
    var fields := [PrintInt(orderId), side, PrintInt(ticks), PrintInt(qty)];
    PrintedAreSolid(orderId, 0.0);
    PrintedAreSolid(ticks, 0.0);
    PrintedAreSolid(qty, 0.0);
    JoinedSays("A", fields, " ");
    assert fields + [] == fields;
    AddShapesIff(Joined(["A"] + fields, " ", ""), "A", orderId, side, PrintInt(ticks), qty, [], side[0], ticks,
      seqNo, nowNs);
    TicksReadIff(ticks);
  }

  /** `X id quantity` and `CANCEL id`, with spaces. */
  lemma SpacedCancelIff(orderId: nat, qty: int, seqNo: Word, nowNs: nat)
    ensures var line := Joined(["X"] + [PrintInt(orderId), PrintInt(qty)], " ", "");
      IsCancel(ParseLine(line, seqNo, nowNs), seqNo, nowNs, orderId, qty) <==> orderId < WORD && IsInt32(qty)
    ensures var line := Joined(["CANCEL"] + [PrintInt(orderId)], " ", "");
      IsCancel(ParseLine(line, seqNo, nowNs), seqNo, nowNs, orderId, 0) <==> orderId < WORD
  {
    PrintedAreSolid(orderId, 0.0);
    PrintedAreSolid(qty, 0.0);
    JoinedSays("X", [PrintInt(orderId), PrintInt(qty)], " ");
    JoinedSays("CANCEL", [PrintInt(orderId)], " ");
    assert [PrintInt(orderId), PrintInt(qty)] == [PrintInt(orderId)] + ([] + [PrintInt(qty)]);
    assert [PrintInt(orderId)] == [PrintInt(orderId)] + ([] + []);
    CancelShapesIff(Joined(["X"] + [PrintInt(orderId), PrintInt(qty)], " ", ""), "X", orderId, [], Some(qty),
      seqNo, nowNs);
    CancelShapesIff(Joined(["CANCEL"] + [PrintInt(orderId)], " ", ""), "CANCEL", orderId, [], None, seqNo, nowNs);
  }

  /** `E id price quantity`, with spaces. */
  lemma SpacedExecuteIff(orderId: nat, price: real, qty: int, seqNo: Word, nowNs: nat)
    ensures var line := Joined(["E"] + [PrintInt(orderId), PrintPrice(price), PrintInt(qty)], " ", "");
      IsExecute(ParseLine(line, seqNo, nowNs), seqNo, nowNs, orderId, qty, Cents(price)) <==>
        orderId < WORD && IsInt32(Cents(price)) && 0 < qty < 0x8000_0000
  {
    var fields := [PrintInt(orderId), PrintPrice(price), PrintInt(qty)];
    PrintedAreSolid(orderId, price);
    PrintedAreSolid(qty, 0.0);
    JoinedSays("E", fields, " ");
    assert fields == [PrintInt(orderId)] + ([] + [PrintPrice(price), PrintInt(qty)]);
    ExecuteShapesIff(Joined(["E"] + fields, " ", ""), "E", orderId, [], PrintPrice(price), qty, Cents(price),
      seqNo, nowNs);
    PriceReadsIff(price);
  }

  // ----- The digits -----

  lemma PrintMore(n: nat, text: string, d: nat)
    requires 0 < n && d < 10 && PrintNat(n) == text
    ensures PrintNat(10 * n + d) == text + [DigitChar(d)]
  {
  }

  /** Decimal, most significant digit first. */
  lemma Numerals()
    ensures PrintInt(1001) == "1001" && PrintInt(-256) == "-256"
  {
    assert DigitChar(0) == '0' && DigitChar(1) == '1' && DigitChar(2) == '2' && DigitChar(5) == '5';
    assert DigitChar(6) == '6';
    PrintMore(1, "1", 0);
    PrintMore(10, "10", 0);
    PrintMore(100, "100", 1);
    PrintMore(2, "2", 5);
    PrintMore(25, "25", 6);
  }
}
