/** Order lines: the printer of bridge.py against the tokeniser and parser of parser_validator.hpp. */
module LineParsers {
  import opened Bits
  import opened Wrappers
  import opened Protocol
  import opened Decimals

  // ----- Tokens -----

  predicate IsSeparator(c: char) {
    c == ',' || c == ' ' || c == '\t' || c == '\r' || c == '\n'
  }

  ghost predicate IsWord(s: string) {
    forall i :: 0 <= i < |s| ==> !IsSeparator(s[i])
  }

  /** Length of the leading separator-free text. */
  function WordRun(s: string): (n: nat)
    ensures n <= |s| && IsWord(s[..n]) && (n < |s| ==> IsSeparator(s[n]))
  {
    if s == [] || IsSeparator(s[0]) then 0 else 1 + WordRun(s[1..])
  }

  /** The maximal separator-free pieces of a line, in order. */
  function Tokens(line: string): (r: seq<string>)
    ensures forall i :: 0 <= i < |r| ==> r[i] != []
    decreases |line|
  {
    if line == [] then []
    else if IsSeparator(line[0]) then Tokens(line[1..])
    else [line[..WordRun(line)]] + Tokens(line[WordRun(line)..])
  }

  lemma {:induction false} RunOfWord(word: string, rest: string)
    requires IsWord(word) && (rest == [] || IsSeparator(rest[0]))
    ensures WordRun(word + rest) == |word|
  {
    if word == [] {
      assert word + rest == rest;
    } else {
      assert (word + rest)[1..] == word[1..] + rest;
      RunOfWord(word[1..], rest);
    }
  }

  function AsToken(word: string): seq<string> {
    if word == [] then [] else [word]
  }

  /** A word, a separator and the rest: the word becomes a token, unless it is empty. */
  lemma WordThenSeparator(word: string, c: char, rest: string)
    requires IsWord(word) && IsSeparator(c)
    ensures Tokens(word + [c] + rest) == AsToken(word) + Tokens(rest)
  {
    var line := word + [c] + rest;
    assert line == word + ([c] + rest);
    RunOfWord(word, [c] + rest);
    assert line[|word|..] == [c] + rest;
    assert ([c] + rest)[1..] == rest;
    assert Tokens([c] + rest) == Tokens(rest);
    if word == [] {
      assert line == [c] + rest;
    } else {
      assert line[..|word|] == word;
    }
  }

  lemma LastWord(word: string)
    requires IsWord(word)
    ensures Tokens(word) == AsToken(word)
  {
    RunOfWord(word, []);
    assert word + [] == word;
    if word != [] {
      assert word[..|word|] == word && word[|word|..] == [];
    }
  }

  /** The tokens still to come when `current` has been gathered and `rest` has not been read. */
  function Gather(current: string, rest: string): seq<string>
    decreases |rest|
  {
    if rest == [] then AsToken(current)
    else if IsSeparator(rest[0]) then AsToken(current) + Gather("", rest[1..])
    else Gather(current + [rest[0]], rest[1..])
  }

  lemma {:induction false} GatherIsTokens(current: string, rest: string)
    requires IsWord(current)
    ensures Gather(current, rest) == Tokens(current + rest)
    decreases |rest|
  {
    if rest == [] {
      LastWord(current);
      assert current + rest == current;
    } else {
      var c, later := rest[0], rest[1..];
      assert current + rest == current + [c] + later;
      if IsSeparator(c) {
        WordThenSeparator(current, c, later);
        GatherIsTokens("", later);
        assert "" + later == later;
      } else {
        GatherIsTokens(current + [c], later);
      }
    }
  }

  lemma GatherNext(tokens: seq<string>, current: string, line: string, i: nat)
    requires i < |line|
    ensures tokens + Gather(current, line[i..]) ==
      if IsSeparator(line[i]) then tokens + AsToken(current) + Gather("", line[i + 1..])
      else tokens + Gather(current + [line[i]], line[i + 1..])
  {
    assert line[i..][0] == line[i] && line[i..][1..] == line[i + 1..];
  }

  lemma GatherAll(line: string)
    ensures Gather("", line) == Tokens(line)
  {
    GatherIsTokens("", line);
    assert "" + line == line;
  }

  /** The tokeniser loop: characters gather in `current` until a separator flushes it. */
  method Tokenize(line: string) returns (tokens: seq<string>)
    ensures tokens == Tokens(line)
  {
    tokens := [];
    var current := "";
    ghost var all := Gather("", line);
    assert line[0..] == line;
    for i := 0 to |line|
      invariant tokens + Gather(current, line[i..]) == all
    {
      var c := line[i];
      GatherNext(tokens, current, line, i);
      if IsSeparator(c) {
        if current != [] {
          tokens := tokens + [current];
          current := "";
        }
      } else {
        current := current + [c];
      }
    }
    if current != [] {
      tokens := tokens + [current];
    }
    GatherAll(line);
  }

  // ----- The parser -----

  function ToUpper(c: char): char {
    if 'a' <= c <= 'z' then (c as int - 'a' as int + 'A' as int) as char else c
  }

  predicate IsComment(line: string) {
    line == [] || line[0] == '#' || (|line| >= 2 && line[0] == '/' && line[1] == '/')
  }

  function Int32Of(token: string): int {
    ToInt32(StrToLong(token))
  }

  /** An add: id, side, price, quantity; later fields ignored. */
  function ParseAdd(f: seq<string>, seqNo: Word, nowNs: nat): Option<Message>
    requires forall i :: 0 <= i < |f| ==> f[i] != []
  {
    if |f| < 4 then None
    else
      var side := ToUpper(f[1][0]);
      var price, quantity := PriceTicks(f[2]), Int32Of(f[3]);
      if (side != 'B' && side != 'S') || price <= 0 || quantity <= 0 then None
      else Some(Add(seqNo, nowNs, StrToUll(f[0]), side, price, quantity))
  }

  /** A cancel: id, then nothing, a quantity, or two dummy columns and a quantity. */
  function ParseCancel(f: seq<string>, seqNo: Word, nowNs: nat): Option<Message> {
    if |f| < 1 then None
    else Some(Cancel(seqNo, nowNs, StrToUll(f[0]),
      if |f| == 1 then 0 else if |f| >= 4 then Int32Of(f[3]) else Int32Of(f[1])))
  }

  /** An execute: id, an optional dummy column, match price, quantity. */
  function ParseExecute(f: seq<string>, seqNo: Word, nowNs: nat): Option<Message> {
    if |f| < 3 then None
    else
      var skip := if |f| >= 4 then 1 else 0;
      var matchPrice, execQty := PriceTicks(f[1 + skip]), Int32Of(f[2 + skip]);
      if execQty <= 0 then None else Some(Execute(seqNo, nowNs, StrToUll(f[0]), execQty, matchPrice))
  }

  /** The fields after the message type, by its first letter. */
  function ParseFields(tokens: seq<string>, seqNo: Word, nowNs: nat): Option<Message>
    requires tokens != [] && forall i :: 0 <= i < |tokens| ==> tokens[i] != []
  {
    var kind := ToUpper(tokens[0][0]);
    if kind == 'A' then ParseAdd(tokens[1..], seqNo, nowNs)
    else if kind == 'X' || kind == 'C' then ParseCancel(tokens[1..], seqNo, nowNs)
    else if kind == 'E' then ParseExecute(tokens[1..], seqNo, nowNs)
    else None
  }

  function ParseLine(line: string, seqNo: Word, nowNs: nat): Option<Message> {
    var tokens := Tokens(line);
    if IsComment(line) || tokens == [] then None
    else
      var rest := if tokens[0] == "ORDER" || tokens[0] == "order" then tokens[1..] else tokens;
      if rest == [] then None else ParseFields(rest, seqNo, nowNs)
  }

  /** `parseUserLine`, with its running index. */
  method ParseUserLine(line: string, seqNo: Word, nowNs: nat) returns (outMsg: Option<Message>)
    ensures outMsg == ParseLine(line, seqNo, nowNs)
  {
    if |line| == 0 || line[0] == '#' || (|line| >= 2 && line[0] == '/' && line[1] == '/') {
      return None;
    }
    var tokens := Tokenize(line);
    if |tokens| == 0 {
      return None;
    }
    var idx := 0;
    if tokens[idx] == "ORDER" || tokens[idx] == "order" {
      idx := idx + 1;
    }
    if idx >= |tokens| {
      return None;
    }
    ghost var f := tokens[idx..][1..];
    var kind := ToUpper(tokens[idx][0]);
    idx := idx + 1;
    assert f == tokens[idx..];
    if kind == 'A' {
      if |tokens| - idx < 4 {
        return None;
      }
      var orderId := StrToUll(tokens[idx]);
      var side := ToUpper(tokens[idx + 1][0]);
      var price := PriceTicks(tokens[idx + 2]);
      var qty := Int32Of(tokens[idx + 3]);
      if side != 'B' && side != 'S' {
        return None;
      }
      if price <= 0 || qty <= 0 {
        return None;
      }
      return Some(Add(seqNo, nowNs, orderId, side, price, qty));
    } else if kind == 'X' || kind == 'C' {
      if |tokens| - idx < 1 {
        return None;
      }
      var orderId := StrToUll(tokens[idx]);
      idx := idx + 1;
      var newQty := 0;
      if idx < |tokens| {
        if |tokens| - idx >= 3 {
          idx := idx + 2;
        }
        newQty := Int32Of(tokens[idx]);
      }
      return Some(Cancel(seqNo, nowNs, orderId, newQty));
    } else if kind == 'E' {
      if |tokens| - idx < 2 {
        return None;
      }
      var orderId := StrToUll(tokens[idx]);
      idx := idx + 1;
      if |tokens| - idx >= 3 {
        idx := idx + 1;
      } else if |tokens| - idx != 2 {
        return None;
      }
      var matchPrice := PriceTicks(tokens[idx]);
      var execQty := Int32Of(tokens[idx + 1]);
      if execQty <= 0 {
        return None;
      }
      return Some(Execute(seqNo, nowNs, orderId, execQty, matchPrice));
    }
    return None;
  }

  // ----- The printer -----

  /** A comma-separated line with its newline. */
  function CsvLine(columns: seq<string>): string
    requires columns != []
  {
    if |columns| == 1 then columns[0] + "\n" else columns[0] + "," + CsvLine(columns[1..])
  }

  /** `format_order_command` on already stripped, upper-case fields; None stands for ValueError. */
  function FormatOrderCommand(orderType: string, orderId: int, side: string, price: real, qty: int): Option<string> {
    if orderType != "A" && orderType != "X" && orderType != "E" then None
    else if orderId <= 0 then None
    else if orderType == "A" then
      if side != "B" && side != "S" then None
      else if price <= 0.0 || qty <= 0 then None
      else Some(CsvLine(["A", PrintInt(orderId), side, PrintPrice(price), PrintInt(qty)]))
    else if orderType == "X" then Some(CsvLine(["X", PrintInt(orderId), "0", "0", PrintInt(qty)]))
    else Some(CsvLine(["E", PrintInt(orderId), "0", PrintPrice(price), PrintInt(qty)]))
  }

  ghost predicate AreWords(columns: seq<string>) {
    forall i :: 0 <= i < |columns| ==> IsWord(columns[i]) && columns[i] != []
  }

  /** Words joined by commas and ended by a newline come back as the tokens. */
  lemma {:induction false} CsvTokens(columns: seq<string>)
    requires columns != [] && AreWords(columns)
    ensures Tokens(CsvLine(columns)) == columns
  {
    if |columns| == 1 {
      WordThenSeparator(columns[0], '\n', "");
      assert columns[0] + "\n" + "" == columns[0] + "\n";
    } else {
      CsvTokens(columns[1..]);
      WordThenSeparator(columns[0], ',', CsvLine(columns[1..]));
      assert [columns[0]] + columns[1..] == columns;
    }
  }

  lemma PrintedAreWords(n: int, price: real)
    ensures IsWord(PrintInt(n)) && IsWord(PrintPrice(price)) && PrintPrice(price) != []
  {
  }

  // ----- What a line says, over every shape -----

  /** The tokens of a line: an optional ORDER, the message type, and its fields. */
  ghost predicate Says(line: string, kind: string, fields: seq<string>) {
    && !IsComment(line) && kind != "ORDER" && kind != "order"
    && (|| Tokens(line) == [kind] + fields
        || Tokens(line) == ["ORDER"] + ([kind] + fields)
        || Tokens(line) == ["order"] + ([kind] + fields))
  }

  predicate Starts(kind: string, letter: char) {
    kind != [] && ToUpper(kind[0]) == letter
  }

  /** Parsing a line is parsing the fields after its type; only the first letter of the type counts. */
  lemma ParseKind(line: string, kind: string, fields: seq<string>, seqNo: Word, nowNs: nat)
    requires Says(line, kind, fields)
    ensures forall i :: 0 <= i < |fields| ==> fields[i] != []
    ensures Starts(kind, 'A') ==> ParseLine(line, seqNo, nowNs) == ParseAdd(fields, seqNo, nowNs)
    ensures Starts(kind, 'X') || Starts(kind, 'C') ==>
      ParseLine(line, seqNo, nowNs) == ParseCancel(fields, seqNo, nowNs)
    ensures Starts(kind, 'E') ==> ParseLine(line, seqNo, nowNs) == ParseExecute(fields, seqNo, nowNs)
  {
    var tokens := Tokens(line);
    var rest := if tokens[0] == "ORDER" || tokens[0] == "order" then tokens[1..] else tokens;
    assert rest == [kind] + fields;
    assert rest[0] == kind && rest[1..] == fields;
    assert forall i :: 0 <= i < |rest| ==> rest[i] != [];
    assert forall i :: 0 <= i < |fields| ==> fields[i] == rest[i + 1];
  }

  predicate IsAdd(r: Option<Message>, seqNo: Word, nowNs: nat, orderId: nat, side: char, price: int, qty: int) {
    && r.Some? && r.value.Add? && r.value.seqNo == seqNo && r.value.timestampNs == nowNs
    && r.value.orderId == orderId && r.value.side == side && r.value.price == price && r.value.quantity == qty
  }

  predicate IsCancel(r: Option<Message>, seqNo: Word, nowNs: nat, orderId: nat, qty: int) {
    && r.Some? && r.value.Cancel? && r.value.seqNo == seqNo && r.value.timestampNs == nowNs
    && r.value.orderId == orderId && r.value.quantity == qty
  }

  predicate IsExecute(r: Option<Message>, seqNo: Word, nowNs: nat, orderId: nat, qty: int, price: int) {
    && r.Some? && r.value.Execute? && r.value.seqNo == seqNo && r.value.timestampNs == nowNs
    && r.value.orderId == orderId && r.value.execQuantity == qty && r.value.matchPrice == price
  }

  /** The add an operator meant is the add that is read, whatever follows the quantity, if and only if it is one the
      book may take and its numbers fit. */
  lemma AddShapesIff(line: string, kind: string, orderId: nat, side: string, priceText: string, qty: int,
                     extra: seq<string>, letter: char, price: int, seqNo: Word, nowNs: nat)
    requires Says(line, kind, [PrintInt(orderId), side, priceText, PrintInt(qty)] + extra)
    requires Starts(kind, 'A')
    ensures side != []
    ensures IsAdd(ParseLine(line, seqNo, nowNs), seqNo, nowNs, orderId, letter, price, qty) <==>
      && orderId < WORD && letter == ToUpper(side[0]) && (letter == 'B' || letter == 'S')
      && price == PriceTicks(priceText) && price > 0 && 0 < qty < 0x8000_0000
  {
    var f := [PrintInt(orderId), side, priceText, PrintInt(qty)] + extra;
    ParseKind(line, kind, f, seqNo, nowNs);
    assert f[1] == side;
    IdRoundTripIff(orderId);
    IntRoundTripIff(qty);
  }

  /** A cancel is written with any number of dummy columns between the id and the quantity, or with no quantity for
      the whole order. What was meant is what is read if and only if the numbers fit and, where the count of columns
      makes the parser look at a dummy, that dummy happens to read as the quantity. Only none or two are safe. */
  lemma CancelShapesIff(line: string, kind: string, orderId: nat, dummies: seq<string>, qty: Option<int>,
                        seqNo: Word, nowNs: nat)
    requires Says(line, kind, [PrintInt(orderId)] + (dummies + if qty.Some? then [PrintInt(qty.value)] else []))
    requires Starts(kind, 'X') || Starts(kind, 'C')
    ensures var meant, written := if qty.Some? then qty.value else 0, |dummies| + if qty.Some? then 1 else 0;
      IsCancel(ParseLine(line, seqNo, nowNs), seqNo, nowNs, orderId, meant) <==>
        && orderId < WORD
        && (if written == 0 then true
            else if qty.Some? && (|dummies| == 0 || |dummies| == 2) then IsInt32(meant)
            else Int32Of(dummies[if written <= 2 then 0 else 2]) == meant)
  {
    var f := [PrintInt(orderId)] + (dummies + if qty.Some? then [PrintInt(qty.value)] else []);
    ParseKind(line, kind, f, seqNo, nowNs);
    assert forall i :: 0 <= i < |dummies| ==> f[i + 1] == dummies[i];
    assert qty.Some? ==> f[|dummies| + 1] == PrintInt(qty.value);
    IdRoundTripIff(orderId);
    IntRoundTripIff(if qty.Some? then qty.value else 0);
  }

  /** An execute is written with any number of dummy columns between the id and the price. With none or one, what was
      meant is read if and only if the numbers fit and the quantity is positive; with more, columns one place or
      two too early are read instead. */
  lemma ExecuteShapesIff(line: string, kind: string, orderId: nat, dummies: seq<string>, priceText: string, qty: int,
                         price: int, seqNo: Word, nowNs: nat)
    requires Says(line, kind, [PrintInt(orderId)] + (dummies + [priceText, PrintInt(qty)]))
    requires Starts(kind, 'E')
    ensures IsExecute(ParseLine(line, seqNo, nowNs), seqNo, nowNs, orderId, qty, price) <==>
      && orderId < WORD && 0 < qty < 0x8000_0000
      && (if |dummies| <= 1 then PriceTicks(priceText) == price
          else PriceTicks(dummies[1]) == price
               && Int32Of(if |dummies| == 2 then priceText else dummies[2]) == qty)
  {
    var f := [PrintInt(orderId)] + (dummies + [priceText, PrintInt(qty)]);
    ParseKind(line, kind, f, seqNo, nowNs);
    assert forall i :: 0 <= i < |dummies| ==> f[i + 1] == dummies[i];
    assert f[|dummies| + 1] == priceText && f[|dummies| + 2] == PrintInt(qty);
    IdRoundTripIff(orderId);
    IntRoundTripIff(qty);
  }

  /** With a single dummy column before it a cancel's quantity is not read: the order is left with whatever number the
      dummy starts with. A side letter there reads as zero and cancels the whole order. */
  lemma LoneDummyColumn(line: string, orderId: nat, dummy: string, qty: int, seqNo: Word, nowNs: nat)
    requires Says(line, "X", [PrintInt(orderId), dummy, PrintInt(qty)]) && orderId < WORD
    ensures ParseLine(line, seqNo, nowNs) == Some(Cancel(seqNo, nowNs, orderId, qty)) <==> Int32Of(dummy) == qty
    ensures ParseLine(line, seqNo, nowNs) == Some(Cancel(seqNo, nowNs, orderId, Int32Of(dummy)))
    ensures dummy == "B" ==> Int32Of(dummy) == 0
  {
    ParseKind(line, "X", [PrintInt(orderId), dummy, PrintInt(qty)], seqNo, nowNs);
    IdRoundTripIff(orderId);
    assert Magnitude("B") == 0;
  }

  lemma NoPointInDigits(n: int)
    ensures '.' !in PrintInt(n)
  {
    var digits := PrintNat(if n < 0 then -n else n);
    assert forall c :: c in PrintInt(n) ==> c == '-' || c in digits;
  }

  /** A price without a point is already in ticks. */
  lemma TicksReadIff(ticks: int)
    ensures PriceTicks(PrintInt(ticks)) == ticks <==> IsInt32(ticks)
  {
    NoPointInDigits(ticks);
    IntRoundTripIff(ticks);
  }

  lemma PriceReadsIff(price: real)
    ensures PriceTicks(PrintPrice(price)) == Cents(price) <==> IsInt32(Cents(price))
  {
    PriceRoundTrip(price);
    CastIff(Cents(price));
  }

  // ----- The round trip -----

  function Columns(orderId: int, second: string, third: string, qty: int): seq<string> {
    [PrintInt(orderId), second, third, PrintInt(qty)]
  }

  /** A printed line says its type letter and its four columns. */
  lemma PrintedLine(kind: string, orderId: int, second: string, third: string, qty: int)
    requires IsWord(second) && IsWord(third) && second != [] && third != []
    requires kind == "A" || kind == "X" || kind == "E"
    ensures Says(CsvLine([kind] + Columns(orderId, second, third, qty)), kind, Columns(orderId, second, third, qty))
  {
    var columns := Columns(orderId, second, third, qty);
    var all := [kind] + columns;
    PrintedAreWords(orderId, 0.0);
    PrintedAreWords(qty, 0.0);
    CsvTokens(all);
    assert all[1..] == columns;
    assert CsvLine(all)[0] == kind[0];
  }

  /** Over all inputs: an add is printed and parses back to itself if and only if its side is B or S, its id is positive
      and below 2^64, its quantity a positive int32, and its price rounds to at least one cent that fits. A positive
      price below half a cent is printed as 0.00, which the parser refuses. */
  lemma AddRoundTripIff(orderId: int, side: string, price: real, qty: int, seqNo: Word, nowNs: nat)
    ensures var line := FormatOrderCommand("A", orderId, side, price, qty);
      && (line.Some? && IsAdd(ParseLine(line.value, seqNo, nowNs), seqNo, nowNs, orderId, side[0], Cents(price), qty)
          <==> (side == "B" || side == "S") && 0 < orderId < WORD
               && 1 <= Cents(price) < 0x8000_0000 && 0 < qty < 0x8000_0000)
      && (line.Some? && Cents(price) == 0 ==> ParseLine(line.value, seqNo, nowNs) == None)
  {
    if FormatOrderCommand("A", orderId, side, price, qty).Some? {
      var line := FormatOrderCommand("A", orderId, side, price, qty).value;
      var columns := Columns(orderId, side, PrintPrice(price), qty);
      assert line == CsvLine(["A"] + columns);
      PrintedAreWords(orderId, price);
      PrintedLine("A", orderId, side, PrintPrice(price), qty);
      assert columns + [] == columns;
      AddShapesIff(line, "A", orderId, side, PrintPrice(price), qty, [], side[0], Cents(price), seqNo, nowNs);
      ParseKind(line, "A", columns, seqNo, nowNs);
      PriceReadsIff(price);
    }
  }

  /** Over all inputs: a cancel is printed and parses back to itself, dummy columns skipped, if and only if its id is
      positive and below 2^64 and its quantity an int32. */
  lemma CancelRoundTripIff(orderId: int, side: string, price: real, qty: int, seqNo: Word, nowNs: nat)
    ensures var line := FormatOrderCommand("X", orderId, side, price, qty);
      line.Some? && IsCancel(ParseLine(line.value, seqNo, nowNs), seqNo, nowNs, orderId, qty) <==>
        0 < orderId < WORD && IsInt32(qty)
  {
    if orderId > 0 {
      var line := FormatOrderCommand("X", orderId, side, price, qty).value;
      var columns := Columns(orderId, "0", "0", qty);
      assert line == CsvLine(["X"] + columns);
      PrintedLine("X", orderId, "0", "0", qty);
      assert columns == [PrintInt(orderId)] + (["0", "0"] + [PrintInt(qty)]);
      CancelShapesIff(line, "X", orderId, ["0", "0"], Some(qty), seqNo, nowNs);
    }
  }

  /** Over all inputs: an execute is printed and parses back to itself if and only if its id is positive and below 2^64,
      its price fits an int32 and its quantity is a positive int32. The printer accepts quantities that are not
      positive, and the parser then refuses the line. */
  lemma ExecuteRoundTripIff(orderId: int, side: string, price: real, qty: int, seqNo: Word, nowNs: nat)
    ensures var line := FormatOrderCommand("E", orderId, side, price, qty);
      && (line.Some? && IsExecute(ParseLine(line.value, seqNo, nowNs), seqNo, nowNs, orderId, qty, Cents(price)) <==>
          0 < orderId < WORD && IsInt32(Cents(price)) && 0 < qty < 0x8000_0000)
      && (line.Some? && IsInt32(qty) && qty <= 0 ==> ParseLine(line.value, seqNo, nowNs) == None)
  {
    if orderId > 0 {
      var line := FormatOrderCommand("E", orderId, side, price, qty).value;
      var columns := Columns(orderId, "0", PrintPrice(price), qty);
      assert line == CsvLine(["E"] + columns);
      PrintedAreWords(orderId, price);
      PrintedLine("E", orderId, "0", PrintPrice(price), qty);
      assert columns == [PrintInt(orderId)] + (["0"] + [PrintPrice(price), PrintInt(qty)]);
      ExecuteShapesIff(line, "E", orderId, ["0"], PrintPrice(price), qty, Cents(price), seqNo, nowNs);
      ParseKind(line, "E", columns, seqNo, nowNs);
      PriceReadsIff(price);
      IntRoundTripIff(qty);
    }
  }

  /** No other type is printed, and ids that are not positive never are. */
  lemma OnlyThreeTypes(orderType: string, orderId: int, side: string, price: real, qty: int)
    requires FormatOrderCommand(orderType, orderId, side, price, qty).Some?
    ensures orderType in ["A", "X", "E"] && orderId > 0
    ensures orderType == "A" ==> price > 0.0 && qty > 0
  {
  }
}
