/** `ParseMatlab`: reading a MATLAB-style literal such as `[1 2 3; 4 5 6]`.
    The text is split into whitespace-separated fields, the fields into
    tokens, and the tokens into rows of numbers. Numerals are read by a
    caller-supplied function standing for `strconv.ParseFloat`. Text is a
    sequence of characters, one per byte of the source's (ASCII) input. */
module Parse {
  import opened Wrappers
  import opened Matrix
  import Dense

  /** Why parsing stopped. `NoRows` stands for the source's panic when no
      row was ever stacked. */
  datatype ParseError = MisalignedRow | BadNumber(token: string) | NoRows

  /** The white space `strings.Fields` splits at (`unicode.IsSpace`). */
  predicate IsSpace(c: char) {
    || c == ' ' || c == '\t' || c == '\n' || c == '\U{000B}' || c == '\U{000C}' || c == '\r'
    || c == '\U{0085}' || c == '\U{00A0}' || c == '\U{1680}' || ('\U{2000}' <= c <= '\U{200A}')
    || c == '\U{2028}' || c == '\U{2029}' || c == '\U{202F}' || c == '\U{205F}' || c == '\U{3000}'
  }

  /** The fields concatenated: the text with its white space removed. */
  function Chars(fields: seq<string>): string {
    if fields == [] then [] else fields[0] + Chars(fields[1..])
  }

  /** Chars of a field put in front. */
  lemma CharsCons(x: string, fields: seq<string>)
    ensures Chars([x] + fields) == x + Chars(fields)
  {
    assert ([x] + fields)[1..] == fields;
  }

  /** The text with every white-space character removed. */
  function NonSpace(s: string): (r: string)
    ensures forall k | 0 <= k < |r| :: !IsSpace(r[k])
  {
    if s == [] then [] else if IsSpace(s[0]) then NonSpace(s[1..]) else [s[0]] + NonSpace(s[1..])
  }

  /** Every field holds at least one character. */
  predicate AllNonEmpty(fields: seq<string>) {
    forall k | 0 <= k < |fields| :: |fields[k]| > 0
  }

  /** The length of the run of non-space characters that starts s. */
  function WordLength(s: string): (n: nat)
    ensures n <= |s| && forall k | 0 <= k < n :: !IsSpace(s[k])
    ensures n < |s| ==> IsSpace(s[n])
  {
    if s == [] || IsSpace(s[0]) then 0 else 1 + WordLength(s[1..])
  }

  /** `strings.Fields`: the maximal runs of non-space characters, in order. */
  function Fields(s: string): (fields: seq<string>)
    ensures AllNonEmpty(fields)
    ensures forall k, c | 0 <= k < |fields| && 0 <= c < |fields[k]| :: !IsSpace(fields[k][c])
    ensures Chars(fields) == NonSpace(s)
    decreases |s|
  {
    if s == [] then []
    else if IsSpace(s[0]) then Fields(s[1..])
    else
      var n := WordLength(s);
      NonSpaceWord(s, n);
      [s[..n]] + Fields(s[n..])
  }

  /** Removing white space from a text that starts with a word of length n
      keeps the word and continues after it. */
  lemma {:induction false} NonSpaceWord(s: string, n: nat)
    requires 0 < n <= |s| && forall k | 0 <= k < n :: !IsSpace(s[k])
    ensures NonSpace(s) == s[..n] + NonSpace(s[n..])
    decreases n
  {
    if n > 1 {
      NonSpaceWord(s[1..], n - 1);
      assert s[1..][..n - 1] == s[1..n];
      assert s[1..][n - 1..] == s[n..];
      assert s[..n] == [s[0]] + s[1..n];
    } else {
      assert s[..1] == [s[0]];
    }
  }

  /** `isNotNumber` as written: `c != '[' || c != ']' || c == ';'`, which
      holds for every character. */
  predicate IsNotNumberAsWritten(c: char) {
    c != '[' || c != ']' || c == ';'
  }

  /** The test evidently intended: the three punctuation characters of the notation. */
  predicate IsNotNumber(c: char) {
    c == '[' || c == ']' || c == ';'
  }

  /** The tokenizer's test, as written or as intended. */
  predicate NotNumber(c: char, asWritten: bool) {
    if asWritten then IsNotNumberAsWritten(c) else IsNotNumber(c)
  }

  /** `lof`: how many characters at the start of top are not punctuation. */
  function NumberPrefix(top: string, asWritten: bool): (lof: nat)
    ensures lof <= |top| && forall k | 0 <= k < lof :: !NotNumber(top[k], asWritten)
    ensures lof < |top| ==> NotNumber(top[lof], asWritten)
  {
    if top == [] || NotNumber(top[0], asWritten) then 0 else 1 + NumberPrefix(top[1..], asWritten)
  }

  /** The deferred clean-up: drops the empty fields at the front. */
  function DropEmpty(fields: seq<string>): (r: seq<string>)
    ensures r == [] || |r[0]| > 0
    ensures Chars(r) == Chars(fields)
    ensures fields != [] && AllNonEmpty(fields[1..]) ==> AllNonEmpty(r)
  {
    if fields != [] && fields[0] == [] then
      assert Chars(fields) == Chars(fields[1..]);
      DropEmpty(fields[1..])
    else fields
  }

  /** What one call of `tok` does to the remaining fields. */
  datatype Step = Eos | Token(t: string, rest: seq<string>)

  /** Cutting a field in two and putting the tail back in front of the
      remaining fields loses no character. */
  lemma SplitField(top: string, n: nat, more: seq<string>)
    requires n <= |top|
    ensures top[..n] + Chars([top[n..]] + more) == top + Chars(more)
    ensures ([top[n..]] + more)[1..] == more
  {
    CharsCons(top[n..], more);
    assert top[..n] + top[n..] == top;
    assert top[..n] + (top[n..] + Chars(more)) == top + Chars(more);
  }

  /** The next token: the number characters at the front of the first field,
      or its first character when that is punctuation. */
  ghost function NextToken(fields: seq<string>, asWritten: bool): (s: Step)
    requires AllNonEmpty(fields)
    ensures s.Eos? <==> fields == []
    ensures s.Token? ==> |s.t| >= 1 && AllNonEmpty(s.rest) && s.t + Chars(s.rest) == Chars(fields)
  {
    if fields == [] then Eos
    else
      var top := fields[0];
      var lof := NumberPrefix(top, asWritten);
      var n := if lof != 0 then lof else 1;
      SplitField(top, n, fields[1..]);
      Token(top[..n], DropEmpty([top[n..]] + fields[1..]))
  }

  /** The whole token stream of the fields. */
  ghost function Tokens(fields: seq<string>, asWritten: bool): (toks: seq<string>)
    requires AllNonEmpty(fields)
    decreases |Chars(fields)|
  {
    match NextToken(fields, asWritten)
    case Eos => []
    case Token(t, rest) => [t] + Tokens(rest, asWritten)
  }

  /** The tokens concatenated. */
  function Concat(toks: seq<string>): string {
    if toks == [] then [] else toks[0] + Concat(toks[1..])
  }

  /** Tokenizing loses and adds nothing: the tokens spell out the fields. */
  lemma {:induction false} TokensSpellFields(fields: seq<string>, asWritten: bool)
    requires AllNonEmpty(fields)
    ensures Concat(Tokens(fields, asWritten)) == Chars(fields)
    decreases |Chars(fields)|
  {
    match NextToken(fields, asWritten)
    case Eos =>
    case Token(t, rest) =>
      TokensSpellFields(rest, asWritten);
      assert ([t] + Tokens(rest, asWritten))[1..] == Tokens(rest, asWritten);
  }

  /** As written, every token is a single character, so a numeral of more
      than one character is split. */
  lemma {:induction false} AsWrittenTokensAreSingleChars(fields: seq<string>)
    requires AllNonEmpty(fields)
    ensures forall k | 0 <= k < |Tokens(fields, true)| :: |Tokens(fields, true)[k]| == 1
    decreases |Chars(fields)|
  {
    match NextToken(fields, true)
    case Eos =>
    case Token(t, rest) =>
      AsWrittenTokensAreSingleChars(rest);
  }

  /** One punctuation character, or a run of characters none of which is
      punctuation. */
  predicate WellShaped(t: string) {
    t == "[" || t == "]" || t == ";" || forall c | 0 <= c < |t| :: !IsNotNumber(t[c])
  }

  /** One token, cut with the intended test, is one punctuation character
      or a run of non-punctuation characters. */
  lemma TokenShape(fields: seq<string>)
    requires AllNonEmpty(fields) && fields != []
    ensures WellShaped(NextToken(fields, false).t)
  {
    var top := fields[0];
    if NumberPrefix(top, false) == 0 {
      assert top[..1] == [top[0]];
    }
  }

  /** The stream of tokens starts with the next token. */
  lemma TokensStep(fields: seq<string>, asWritten: bool)
    requires AllNonEmpty(fields) && fields != []
    ensures Tokens(fields, asWritten) == [NextToken(fields, asWritten).t] + Tokens(NextToken(fields, asWritten).rest, asWritten)
  {
  }

  /** With the intended test, a token is either one punctuation character or
      a run of characters none of which is punctuation. */
  lemma {:induction false} TokensSeparatePunctuation(fields: seq<string>)
    requires AllNonEmpty(fields)
    ensures forall k | 0 <= k < |Tokens(fields, false)| :: WellShaped(Tokens(fields, false)[k])
    decreases |Chars(fields)|
  {
    if fields != [] {
      var step := NextToken(fields, false);
      TokenShape(fields);
      TokensSeparatePunctuation(step.rest);
      TokensStep(fields, false);
      var toks := Tokens(fields, false);
      forall k | 0 <= k < |toks|
        ensures WellShaped(toks[k])
      {
        if k > 0 {
          assert toks[k] == Tokens(step.rest, false)[k - 1];
        }
      }
    }
  }

  /** With the intended test, a field made of number characters only is
      one token, however long: the numeral is not split. (As written, a
      numeral of n characters gives n tokens.) */
  lemma NumeralStaysWhole(w: string, more: seq<string>)
    requires |w| > 0 && (forall k | 0 <= k < |w| :: !IsNotNumber(w[k])) && AllNonEmpty(more)
    ensures AllNonEmpty([w] + more)
    ensures Tokens([w] + more, false) == [w] + Tokens(more, false)
  {
    NumeralStep(w, [], more, false);
    assert w + [] == w;
    assert ([[]] + more)[1..] == more;
  }

  /** The state `tok` closes over: the fields not consumed yet. */
  class Tokenizer {
    var spaceSep: seq<string>

    ghost predicate Valid()
      reads this
    {
      AllNonEmpty(spaceSep)
    }

    constructor (fields: seq<string>)
      requires AllNonEmpty(fields)
      ensures Valid() && spaceSep == fields
    {
      spaceSep := fields;
    }

    /** `tok`: eos when no field is left; otherwise the next token, cut
        from the front of the first field, and the empty fields at the
        front dropped afterwards. */
    method Tok(asWritten: bool) returns (t: string, eos: bool)
      requires Valid()
      modifies this
      ensures Valid()
      ensures eos <==> old(spaceSep) == []
      ensures eos ==> spaceSep == old(spaceSep)
      ensures !eos ==> NextToken(old(spaceSep), asWritten) == Token(t, spaceSep)
    {
      t := "";
      if |spaceSep| == 0 {
        return t, true;
      }
      eos := false;
      var top := spaceSep[0];
      var lof := 0;
      while lof < |top| && !NotNumber(top[lof], asWritten)
        invariant lof <= |top| && forall k | 0 <= k < lof :: !NotNumber(top[k], asWritten)
      {
        lof := lof + 1;
      }
      assert lof == NumberPrefix(top, asWritten);
      if lof != 0 {
        t := top[..lof];
        spaceSep := [top[lof..]] + spaceSep[1..];
      } else {
        t := top[..1];
        spaceSep := [top[1..]] + spaceSep[1..];
      }
      // deferred: drop empty fields at the front
      while |spaceSep| != 0 && |spaceSep[0]| == 0
        invariant DropEmpty(spaceSep) == NextToken(old(spaceSep), asWritten).rest
      {
        spaceSep := spaceSep[1..];
      }
    }
  }

  /** `stack`: the rows with row appended (the source appends it even when
      it reports the mismatch), and a mismatch error when some row was
      stacked before and the first one has a different length. */
  function Stack(arrays: seq<seq<real>>, row: seq<real>): (r: (seq<seq<real>>, Option<ParseError>))
    ensures r.0 == arrays + [row]
    ensures r.1 == None || r.1 == Some(MisalignedRow)
    ensures r.1 == Some(MisalignedRow) <==> arrays != [] && |arrays[0]| != |row|
  {
    if |arrays| == 0 then ([row], None)
    else if |arrays[0]| != |row| then (arrays + [row], Some(MisalignedRow))
    else (arrays + [row], None)
  }

  /** Every row has the length of the first. */
  predicate Aligned(arrays: seq<seq<real>>) {
    forall k | 0 <= k < |arrays| :: |arrays[k]| == |arrays[0]|
  }

  /** The rows the token loop ends with, from the current row and the rows
      stacked so far: `[` is skipped, `;` stacks the row and starts an empty
      one, `]` stacks the row and stops, anything else must be a numeral and
      is appended to the row. Running out of tokens stops without stacking. */
  ghost function Run(toks: seq<string>, row: seq<real>, arrays: seq<seq<real>>,
                     parseFloat: string -> Option<real>): Result<seq<seq<real>>, ParseError>
  {
    if toks == [] then Ok(arrays)
    else
      var t := toks[0];
      if t == "[" then Run(toks[1..], row, arrays, parseFloat)
      else if t == ";" then
        var (stacked, err) := Stack(arrays, row);
        if err.Some? then Err(err.value) else Run(toks[1..], [], stacked, parseFloat)
      else if t == "]" then
        var (stacked, err) := Stack(arrays, row);
        if err.Some? then Err(err.value) else Ok(stacked)
      else
        match parseFloat(t)
        case None => Err(BadNumber(t))
        case Some(v) => Run(toks[1..], row + [v], arrays, parseFloat)
  }

  /** Stacking a row without error keeps the rows aligned. */
  lemma StackKeepsAligned(arrays: seq<seq<real>>, row: seq<real>)
    requires Aligned(arrays) && Stack(arrays, row).1 == None
    ensures Aligned(Stack(arrays, row).0)
  {
    var s := arrays + [row];
    forall k | 0 <= k < |s|
      ensures |s[k]| == |s[0]|
    {
      if k == |arrays| && arrays != [] {
        assert s[k] == row && s[0] == arrays[0];
      }
    }
  }

  /** Rows that come out of the loop are all as long as the first. */
  lemma {:induction false} RunAligned(toks: seq<string>, row: seq<real>, arrays: seq<seq<real>>,
                                      parseFloat: string -> Option<real>)
    requires Aligned(arrays)
    ensures Run(toks, row, arrays, parseFloat).Ok? ==> Aligned(Run(toks, row, arrays, parseFloat).value)
    decreases |toks|
  {
    if toks != [] {
      var t := toks[0];
      var (stacked, err) := Stack(arrays, row);
      if err.None? {
        StackKeepsAligned(arrays, row);
      }
      if t == "[" {
        RunAligned(toks[1..], row, arrays, parseFloat);
      } else if t == ";" {
        if err.None? {
          RunAligned(toks[1..], [], stacked, parseFloat);
        }
      } else if t != "]" && parseFloat(t).Some? {
        RunAligned(toks[1..], row + [parseFloat(t).value], arrays, parseFloat);
      }
    }
  }

  /** A row whose length differs from the first stacked row's stops the parse with MisalignedRow. */
  lemma MisalignedStops(toks: seq<string>, row: seq<real>, arrays: seq<seq<real>>,
                        parseFloat: string -> Option<real>)
    requires toks != [] && (toks[0] == ";" || toks[0] == "]") && arrays != [] && |arrays[0]| != |row|
    ensures Run(toks, row, arrays, parseFloat) == Err(MisalignedRow)
  {
  }

  /** A field that starts with punctuation gives that character as a token. */
  lemma PunctuationStep(c: char, tail: string, more: seq<string>, asWritten: bool)
    requires NotNumber(c, asWritten) && AllNonEmpty(more)
    ensures AllNonEmpty([[c] + tail] + more)
    ensures Tokens([[c] + tail] + more, asWritten) == [[c]] + Tokens(DropEmpty([tail] + more), asWritten)
  {
    var fields := [[c] + tail] + more;
    assert fields[0][1..] == tail && fields[0][..1] == [c] && fields[1..] == more;
    TokensStep(fields, asWritten);
  }

  /** A field of the form w c, with w free of punctuation and c punctuation,
      gives w as a token and leaves c in front. */
  lemma NumeralStep(w: string, tail: string, more: seq<string>, asWritten: bool)
    requires |w| > 0 && (forall k | 0 <= k < |w| :: !NotNumber(w[k], asWritten)) && AllNonEmpty(more)
    requires tail == [] || NotNumber(tail[0], asWritten)
    ensures AllNonEmpty([w + tail] + more)
    ensures Tokens([w + tail] + more, asWritten) == [w] + Tokens(DropEmpty([tail] + more), asWritten)
  {
    var fields := [w + tail] + more;
    NumberPrefixOf(w, tail, asWritten);
    assert fields[0][..|w|] == w && fields[0][|w|..] == tail && fields[1..] == more;
    TokensStep(fields, asWritten);
  }

  /** The number prefix of w followed by punctuation (or nothing) is w. */
  lemma {:induction false} NumberPrefixOf(w: string, tail: string, asWritten: bool)
    requires (forall k | 0 <= k < |w| :: !NotNumber(w[k], asWritten)) && (tail == [] || NotNumber(tail[0], asWritten))
    ensures NumberPrefix(w + tail, asWritten) == |w|
  {
    if w != [] {
      assert (w + tail)[1..] == w[1..] + tail;
      NumberPrefixOf(w[1..], tail, asWritten);
    } else {
      assert w + tail == tail;
    }
  }

  /** As written, the tokens are exactly the characters of the fields, one each. */
  lemma {:induction false} AsWrittenTokensAreChars(fields: seq<string>)
    requires AllNonEmpty(fields)
    ensures Tokens(fields, true) == Singles(Chars(fields))
    decreases |Chars(fields)|
  {
    if fields != [] {
      var step := NextToken(fields, true);
      TokensStep(fields, true);
      AsWrittenTokensAreChars(step.rest);
      assert step.t == [fields[0][0]];
      assert Chars(fields) == step.t + Chars(step.rest);
      assert Chars(fields)[1..] == Chars(step.rest);
    }
  }

  /** Each character as a one-character string. */
  function Singles(s: string): (r: seq<string>)
    ensures |r| == |s| && forall k | 0 <= k < |s| :: r[k] == [s[k]]
  {
    if s == [] then [] else [[s[0]]] + Singles(s[1..])
  }

  /** A word ended by white space or by the end of the text is one field. */
  lemma FieldsWord(w: string, rest: string)
    requires |w| > 0 && (forall k | 0 <= k < |w| :: !IsSpace(w[k])) && (rest == [] || IsSpace(rest[0]))
    ensures Fields(w + rest) == [w] + Fields(rest)
  {
    var s := w + rest;
    assert WordLength(s) == |w| by {
      WordLengthOf(w, rest);
    }
    assert s[..|w|] == w && s[|w|..] == rest;
  }

  /** The word length of w followed by white space (or nothing) is |w|. */
  lemma {:induction false} WordLengthOf(w: string, rest: string)
    requires (forall k | 0 <= k < |w| :: !IsSpace(w[k])) && (rest == [] || IsSpace(rest[0]))
    ensures WordLength(w + rest) == |w|
  {
    if w != [] {
      assert (w + rest)[1..] == w[1..] + rest;
      WordLengthOf(w[1..], rest);
    } else {
      assert w + rest == rest;
    }
  }

  /** Leading white space is skipped. */
  lemma FieldsSpace(rest: string)
    ensures Fields(" " + rest) == Fields(rest)
  {
    assert (" " + rest)[1..] == rest;
  }

  /** The words joined with single spaces. */
  function JoinSpaces(words: seq<string>): string {
    if |words| == 0 then ""
    else if |words| == 1 then words[0]
    else words[0] + " " + JoinSpaces(words[1..])
  }

  /** Splitting words joined with single spaces gives the words back, when
      none is empty or holds white space. */
  lemma {:induction false} FieldsOfJoined(words: seq<string>)
    requires AllNonEmpty(words)
    requires forall k, c | 0 <= k < |words| && 0 <= c < |words[k]| :: !IsSpace(words[k][c])
    ensures Fields(JoinSpaces(words)) == words
  {
    if |words| == 1 {
      FieldsWord(words[0], "");
      assert words[0] + "" == words[0];
    } else if |words| > 1 {
      var rest := JoinSpaces(words[1..]);
      assert forall c | 0 <= c < |words[0]| :: !IsSpace(words[0][c]);
      calc {
        Fields(JoinSpaces(words));
        { assert words[0] + " " + rest == words[0] + (" " + rest); }
        Fields(words[0] + (" " + rest));
        { FieldsWord(words[0], " " + rest); }
        [words[0]] + Fields(" " + rest);
        { FieldsSpace(rest); }
        [words[0]] + Fields(rest);
        { FieldsOfJoined(words[1..]); }
        [words[0]] + words[1..];
      }
      assert [words[0]] + words[1..] == words;
    }
  }

  /** A word in front of at least one more is followed by a space. */
  lemma JoinCons(w: string, words: seq<string>, joined: string)
    requires |words| > 0 && JoinSpaces(words) == joined
    ensures JoinSpaces([w] + words) == w + " " + joined
  {
    assert ([w] + words)[1..] == words;
  }

  /** The test input is its words joined with single spaces. */
  lemma JoinExample(words: seq<string>)
    requires words == ["[1", "2", "3;", "4", "5", "6]"]
    ensures JoinSpaces(words) == "[1 2 3; 4 5 6]"
  {
    JoinCons("5", ["6]"], "6]");
    JoinCons("4", ["5", "6]"], "5" + " " + "6]");
    JoinCons("3;", ["4", "5", "6]"], "4" + " " + ("5" + " " + "6]"));
    JoinCons("2", ["3;", "4", "5", "6]"], "3;" + " " + ("4" + " " + ("5" + " " + "6]")));
    JoinCons("[1", ["2", "3;", "4", "5", "6]"], "2" + " " + ("3;" + " " + ("4" + " " + ("5" + " " + "6]"))));
  }

  /** The words of the test input are non-empty, hold no white space, and
      have no two numeral characters side by side. */
  lemma WordsExample(words: seq<string>)
    requires words == ["[1", "2", "3;", "4", "5", "6]"]
    ensures AllNonEmpty(words) && NumeralsAreSingle(words)
    ensures forall k, c | 0 <= k < |words| && 0 <= c < |words[k]| :: !IsSpace(words[k][c])
  {
  }

  /** `strings.Fields` of the test input. */
  lemma FieldsExample()
    ensures Fields("[1 2 3; 4 5 6]") == ["[1", "2", "3;", "4", "5", "6]"]
  {
    var words := ["[1", "2", "3;", "4", "5", "6]"];
    JoinExample(words);
    WordsExample(words);
    FieldsOfJoined(words);
  }

  /** No field has two numeral characters side by side. */
  predicate NumeralsAreSingle(fields: seq<string>) {
    forall k, c | 0 <= k < |fields| && 0 <= c && c + 1 < |fields[k]| ::
      IsNotNumber(fields[k][c]) || IsNotNumber(fields[k][c + 1])
  }

  /** The property survives cutting the first character off the first field
      and dropping empty fields. */
  lemma NumeralsAreSingleRest(fields: seq<string>)
    requires fields != [] && |fields[0]| > 0 && NumeralsAreSingle(fields)
    ensures NumeralsAreSingle(DropEmpty([fields[0][1..]] + fields[1..]))
  {
    var x := [fields[0][1..]] + fields[1..];
    assert NumeralsAreSingle(x) by {
      forall k, c | 0 <= k < |x| && 0 <= c && c + 1 < |x[k]|
        ensures IsNotNumber(x[k][c]) || IsNotNumber(x[k][c + 1])
      {
        if k == 0 {
          assert x[0][c] == fields[0][c + 1] && x[0][c + 1] == fields[0][c + 2];
        } else {
          assert x[k] == fields[k];
        }
      }
    }
    DropEmptySuffix(x);
  }

  /** Dropping empty fields keeps the property. */
  lemma {:induction false} DropEmptySuffix(fields: seq<string>)
    requires NumeralsAreSingle(fields)
    ensures NumeralsAreSingle(DropEmpty(fields))
  {
    if fields != [] && fields[0] == [] {
      var rest := fields[1..];
      assert NumeralsAreSingle(rest) by {
        forall k, c | 0 <= k < |rest| && 0 <= c && c + 1 < |rest[k]|
          ensures IsNotNumber(rest[k][c]) || IsNotNumber(rest[k][c + 1])
        {
          assert rest[k] == fields[k + 1];
        }
      }
      DropEmptySuffix(rest);
    }
  }

  /** When no numeral in the text is longer than one character, the test as
      written and the intended one cut the same tokens: the defect shows
      only on numerals of two or more characters. */
  lemma {:induction false} TestsAgree(fields: seq<string>)
    requires AllNonEmpty(fields) && NumeralsAreSingle(fields)
    ensures Tokens(fields, false) == Tokens(fields, true)
    decreases |Chars(fields)|
  {
    if fields != [] {
      var top := fields[0];
      assert NumberPrefix(top, true) == 0;
      var lof := NumberPrefix(top, false);
      if |top| >= 2 {
        assert IsNotNumber(fields[0][0]) || IsNotNumber(fields[0][1]);
      }
      assert lof <= 1;
      assert NextToken(fields, false) == NextToken(fields, true);
      NumeralsAreSingleRest(fields);
      TestsAgree(NextToken(fields, false).rest);
      TokensStep(fields, false);
      TokensStep(fields, true);
    }
  }

  /** Chars of three fields. */
  lemma CharsOfThree(a: string, b: string, c: string)
    ensures Chars([a, b, c]) == a + b + c
  {
    CharsCons(c, []);
    assert [c] + [] == [c];
    CharsCons(b, [c]);
    assert [b] + [c] == [b, c];
    CharsCons(a, [b, c]);
    assert [a] + [b, c] == [a, b, c];
  }

  /** Chars of six fields. */
  lemma CharsOfSix(a: string, b: string, c: string, d: string, e: string, f: string)
    ensures Chars([a, b, c, d, e, f]) == a + b + c + d + e + f
  {
    CharsOfThree(d, e, f);
    CharsCons(c, [d, e, f]);
    assert [c] + [d, e, f] == [c, d, e, f];
    CharsCons(b, [c, d, e, f]);
    assert [b] + [c, d, e, f] == [b, c, d, e, f];
    CharsCons(a, [b, c, d, e, f]);
    assert [a] + [b, c, d, e, f] == [a, b, c, d, e, f];
  }

  /** The characters of the test input. */
  lemma CharsExample(fields: seq<string>)
    requires fields == ["[1", "2", "3;", "4", "5", "6]"]
    ensures Chars(fields) == "[123;456]"
  {
    CharsOfSix("[1", "2", "3;", "4", "5", "6]");
  }

  /** Each character of the test input's fields, as a token. */
  lemma SinglesExample(s: string)
    requires s == "[123;456]"
    ensures Singles(s) == ["[", "1", "2", "3", ";", "4", "5", "6", "]"]
  {
    var r := Singles(s);
    assert |r| == 9;
  }

  /** The tokens of the test input as the source cuts them. */
  lemma AsWrittenExample(fields: seq<string>)
    requires fields == ["[1", "2", "3;", "4", "5", "6]"]
    ensures AllNonEmpty(fields)
    ensures Tokens(fields, true) == ["[", "1", "2", "3", ";", "4", "5", "6", "]"]
  {
    WordsExample(fields);
    AsWrittenTokensAreChars(fields);
    CharsExample(fields);
    SinglesExample(Chars(fields));
  }

  /** The tokens of the test input, under both tests. */
  lemma TokensExample(fields: seq<string>)
    requires fields == ["[1", "2", "3;", "4", "5", "6]"]
    ensures AllNonEmpty(fields)
    ensures Tokens(fields, false) == ["[", "1", "2", "3", ";", "4", "5", "6", "]"]
    ensures Tokens(fields, true) == ["[", "1", "2", "3", ";", "4", "5", "6", "]"]
  {
    WordsExample(fields);
    TestsAgree(fields);
    AsWrittenExample(fields);
  }

  /** A numeral token appends its value to the row. */
  lemma RunNumeral(t: string, rest: seq<string>, row: seq<real>, arrays: seq<seq<real>>,
                   parseFloat: string -> Option<real>)
    requires t != "[" && t != ";" && t != "]" && parseFloat(t).Some?
    ensures Run([t] + rest, row, arrays, parseFloat) == Run(rest, row + [parseFloat(t).value], arrays, parseFloat)
  {
    assert ([t] + rest)[0] == t && ([t] + rest)[1..] == rest;
  }

  /** A run of numeral tokens appends their values to the row, in order. */
  lemma {:induction false} RunNumerals(ns: seq<string>, vs: seq<real>, rest: seq<string>, row: seq<real>,
                                       arrays: seq<seq<real>>, parseFloat: string -> Option<real>)
    requires |ns| == |vs|
    requires forall k | 0 <= k < |ns| :: ns[k] != "[" && ns[k] != ";" && ns[k] != "]" && parseFloat(ns[k]) == Some(vs[k])
    ensures Run(ns + rest, row, arrays, parseFloat) == Run(rest, row + vs, arrays, parseFloat)
    decreases |ns|
  {
    if ns == [] {
      assert ns + rest == rest && row + vs == row;
    } else {
      assert ns + rest == [ns[0]] + (ns[1..] + rest);
      RunNumeral(ns[0], ns[1..] + rest, row, arrays, parseFloat);
      RunNumerals(ns[1..], vs[1..], rest, row + [vs[0]], arrays, parseFloat);
      assert row + [vs[0]] + vs[1..] == row + vs;
    }
  }

  /** `;` stacks the row and starts an empty one. */
  lemma RunSemicolon(rest: seq<string>, row: seq<real>, arrays: seq<seq<real>>,
                     parseFloat: string -> Option<real>)
    requires Stack(arrays, row).1 == None
    ensures Run([";"] + rest, row, arrays, parseFloat) == Run(rest, [], arrays + [row], parseFloat)
  {
    assert ([";"] + rest)[0] == ";" && ([";"] + rest)[1..] == rest;
  }

  /** `]` stacks the row and ends the loop, whatever follows. */
  lemma RunClose(rest: seq<string>, row: seq<real>, arrays: seq<seq<real>>,
                 parseFloat: string -> Option<real>)
    requires Stack(arrays, row).1 == None
    ensures Run(["]"] + rest, row, arrays, parseFloat) == Ok(arrays + [row])
  {
    assert (["]"] + rest)[0] == "]";
  }

  /** `[` is skipped. */
  lemma RunOpen(rest: seq<string>, row: seq<real>, arrays: seq<seq<real>>,
                parseFloat: string -> Option<real>)
    ensures Run(["["] + rest, row, arrays, parseFloat) == Run(rest, row, arrays, parseFloat)
  {
    assert (["["] + rest)[0] == "[" && (["["] + rest)[1..] == rest;
  }

  /** Two rows of numerals of the same length, bracketed and separated by
      `;`, stack into those two rows. */
  lemma RunTwoRows(r1: seq<string>, r2: seq<string>, v1: seq<real>, v2: seq<real>,
                   parseFloat: string -> Option<real>)
    requires |r1| == |v1| && |r2| == |v2| && |v1| == |v2|
    requires forall k | 0 <= k < |r1| :: r1[k] != "[" && r1[k] != ";" && r1[k] != "]" && parseFloat(r1[k]) == Some(v1[k])
    requires forall k | 0 <= k < |r2| :: r2[k] != "[" && r2[k] != ";" && r2[k] != "]" && parseFloat(r2[k]) == Some(v2[k])
    ensures Run(["["] + (r1 + ([";"] + (r2 + ["]"]))), [], [], parseFloat) == Ok([v1, v2])
  {
    var pf := parseFloat;
    var tail := r2 + ["]"];
    assert [] + v1 == v1 && [] + v2 == v2 && [] + [v1] == [v1] && [v1] + [v2] == [v1, v2];
    calc {
      Run(["["] + (r1 + ([";"] + tail)), [], [], pf);
      { RunOpen(r1 + ([";"] + tail), [], [], pf); }
      Run(r1 + ([";"] + tail), [], [], pf);
      { RunNumerals(r1, v1, [";"] + tail, [], [], pf); }
      Run([";"] + tail, v1, [], pf);
      { RunSemicolon(tail, v1, [], pf); }
      Run(tail, [], [v1], pf);
      { RunNumerals(r2, v2, ["]"], [], [v1], pf); }
      Run(["]"], v2, [v1], pf);
      { RunClose([], v2, [v1], pf); assert ["]"] + [] == ["]"]; }
      Ok([v1, v2]);
    }
  }

  /** The token loop on the test's tokens. */
  lemma RunExample(parseFloat: string -> Option<real>)
    requires parseFloat("1") == Some(1.0) && parseFloat("2") == Some(2.0) && parseFloat("3") == Some(3.0)
    requires parseFloat("4") == Some(4.0) && parseFloat("5") == Some(5.0) && parseFloat("6") == Some(6.0)
    ensures Run(["[", "1", "2", "3", ";", "4", "5", "6", "]"], [], [], parseFloat) == Ok([[1.0, 2.0, 3.0], [4.0, 5.0, 6.0]])
  {
    var r1, r2 := ["1", "2", "3"], ["4", "5", "6"];
    RunTwoRows(r1, r2, [1.0, 2.0, 3.0], [4.0, 5.0, 6.0], parseFloat);
    assert ["[", "1", "2", "3", ";", "4", "5", "6", "]"] == ["["] + (r1 + ([";"] + (r2 + ["]"])));
  }

  /** The source's own test input, `[1 2 3; 4 5 6]`, reads as the 2 x 3
      matrix with rows 1 2 3 and 4 5 6, whichever test the tokenizer uses,
      since each numeral in it is one character long. */
  lemma ParseExample(parseFloat: string -> Option<real>)
    requires parseFloat("1") == Some(1.0) && parseFloat("2") == Some(2.0) && parseFloat("3") == Some(3.0)
    requires parseFloat("4") == Some(4.0) && parseFloat("5") == Some(5.0) && parseFloat("6") == Some(6.0)
    ensures Parsed("[1 2 3; 4 5 6]", false, parseFloat) == Ok([[1.0, 2.0, 3.0], [4.0, 5.0, 6.0]])
    ensures Parsed("[1 2 3; 4 5 6]", true, parseFloat) == Ok([[1.0, 2.0, 3.0], [4.0, 5.0, 6.0]])
  {
    FieldsExample();
    TokensExample(["[1", "2", "3;", "4", "5", "6]"]);
    RunExample(parseFloat);
  }

  /** A lone punctuation field is one token. */
  lemma CloseAlone(close: char)
    requires IsNotNumber(close)
    ensures AllNonEmpty([[close]]) && Tokens([[close]], false) == [[close]]
  {
    var empty: seq<string> := [];
    assert [close] + [] == [close];
    assert [[close] + []] + empty == [[close]];
    PunctuationStep(close, [], empty, false);
    assert DropEmpty([[]] + empty) == empty;
  }

  /** A numeral followed by punctuation is two tokens. */
  lemma NumeralThenClose(w: string, close: char)
    requires IsNotNumber(close)
    requires |w| > 0 && forall k | 0 <= k < |w| :: !IsNotNumber(w[k])
    ensures AllNonEmpty([w + [close]]) && Tokens([w + [close]], false) == [w, [close]]
  {
    var empty: seq<string> := [];
    CloseAlone(close);
    NumeralStep(w, [close], empty, false);
    assert [w + [close]] + empty == [w + [close]];
    assert DropEmpty([[close]] + empty) == [[close]];
  }

  /** A field that opens with punctuation: that character, then the rest of
      the field. */
  lemma OpenThen(open: char, tail: string)
    requires IsNotNumber(open) && |tail| > 0
    ensures AllNonEmpty([[open] + tail])
    ensures Tokens([[open] + tail], false) == [[open]] + Tokens([tail], false)
  {
    var empty: seq<string> := [];
    PunctuationStep(open, tail, empty, false);
    assert [[open] + tail] + empty == [[open] + tail];
    assert [tail] + empty == [tail];
  }

  /** With the intended test, a numeral between two punctuation characters is
      one token, however long it is. */
  lemma BracketedNumeral(open: char, w: string, close: char)
    requires IsNotNumber(open) && IsNotNumber(close)
    requires |w| > 0 && forall k | 0 <= k < |w| :: !IsNotNumber(w[k])
    ensures AllNonEmpty([[open] + (w + [close])])
    ensures Tokens([[open] + (w + [close])], false) == [[open], w, [close]]
  {
    var tail := w + [close];
    calc {
      Tokens([[open] + tail], false);
      { OpenThen(open, tail); }
      [[open]] + Tokens([tail], false);
      { NumeralThenClose(w, close); }
      [[open]] + [w, [close]];
      [[open], w, [close]];
    }
  }

  /** As written, the tokens of `[12]` are its four characters. */
  lemma TwelveAsWrittenTokens(fields: seq<string>)
    requires fields == ["[12]"]
    ensures AllNonEmpty(fields)
    ensures Tokens(fields, true) == ["[", "1", "2", "]"]
  {
    AsWrittenTokensAreChars(fields);
    OneFieldChars(fields, "[12]");
    TwelveSingles(Chars(fields));
  }

  /** The characters of a single field are the field's. */
  lemma OneFieldChars(fields: seq<string>, w: string)
    requires fields == [w]
    ensures Chars(fields) == w
  {
    CharsCons(w, []);
    assert [w] + [] == fields;
  }

  /** Each character of `[12]`, as a token. */
  lemma TwelveSingles(s: string)
    requires s == "[12]"
    ensures Singles(s) == ["[", "1", "2", "]"]
  {
    var r := Singles(s);
    assert |r| == 4;
  }

  /** With the intended test, the tokens of `[12]` are `[`, `12` and `]`. */
  lemma TwelveTokens(fields: seq<string>)
    requires fields == ["[12]"]
    ensures AllNonEmpty(fields)
    ensures Tokens(fields, false) == ["[", "12", "]"]
  {
    BracketedNumeral('[', "12", ']');
    assert ['['] + ("12" + [']']) == "[12]";
  }

  /** The token loop on the two token sequences of `[12]`. */
  lemma TwelveRuns(parseFloat: string -> Option<real>)
    requires parseFloat("1") == Some(1.0) && parseFloat("2") == Some(2.0) && parseFloat("12") == Some(12.0)
    ensures Run(["[", "1", "2", "]"], [], [], parseFloat) == Ok([[1.0, 2.0]])
    ensures Run(["[", "12", "]"], [], [], parseFloat) == Ok([[12.0]])
  {
    var pf := parseFloat;
    RunClose([], [1.0, 2.0], [], pf);
    RunNumerals(["1", "2"], [1.0, 2.0], ["]"], [], [], pf);
    RunOpen(["1", "2"] + ["]"], [], [], pf);
    assert ["[", "1", "2", "]"] == ["["] + (["1", "2"] + ["]"]);
    assert [] + [1.0, 2.0] == [1.0, 2.0] && [] + [[1.0, 2.0]] == [[1.0, 2.0]];
    RunClose([], [12.0], [], pf);
    RunNumeral("12", ["]"], [], [], pf);
    RunOpen(["12"] + ["]"], [], [], pf);
    assert ["[", "12", "]"] == ["["] + (["12"] + ["]"]);
    assert [] + [12.0] == [12.0] && [] + [[12.0]] == [[12.0]];
  }

  /** As written, `[12]` reads as the 1 x 2 matrix [1 2]; with the intended
      test it reads as the 1 x 1 matrix [12]. */
  lemma AsWrittenSplitsNumerals(parseFloat: string -> Option<real>)
    requires parseFloat("1") == Some(1.0) && parseFloat("2") == Some(2.0) && parseFloat("12") == Some(12.0)
    ensures Parsed("[12]", true, parseFloat) == Ok([[1.0, 2.0]])
    ensures Parsed("[12]", false, parseFloat) == Ok([[12.0]])
  {
    FieldsWord("[12]", "");
    assert "[12]" + "" == "[12]";
    TwelveAsWrittenTokens(["[12]"]);
    TwelveTokens(["[12]"]);
    TwelveRuns(parseFloat);
  }

  /** What `ParseMatlab` yields for a text under a given tokenizer test. */
  ghost function Parsed(txt: string, asWritten: bool, parseFloat: string -> Option<real>): Result<seq<seq<real>>, ParseError>
  {
    Run(Tokens(Fields(txt), asWritten), [], [], parseFloat)
  }

  /** The token loop of `ParseMatlab`: reads the tokenizer's tokens until
      the end of the text or the first `]`, stacking a row at each `;` and
      `]`. Its outcome is that of `Run` on the tokens. */
  method ReadRows(tk: Tokenizer, parseFloat: string -> Option<real>) returns (res: Result<seq<seq<real>>, ParseError>)
    requires tk.Valid()
    modifies tk
    ensures res == Run(Tokens(old(tk.spaceSep), false), [], [], parseFloat)
  {
    ghost var result := Run(Tokens(tk.spaceSep, false), [], [], parseFloat);
    var arrays: seq<seq<real>> := [];
    var row: seq<real> := [];
    while true
      invariant tk.Valid()
      invariant Run(Tokens(tk.spaceSep, false), row, arrays, parseFloat) == result
      decreases |Chars(tk.spaceSep)|
    {
      ghost var before := tk.spaceSep;
      var t, eos := tk.Tok(false);
      if eos {
        break;
      }
      ghost var rest := Tokens(tk.spaceSep, false);
      TokensStep(before, false);
      assert ([t] + rest)[0] == t && ([t] + rest)[1..] == rest;
      if t == "[" {
      } else if t == ";" {
        var stacked := Stack(arrays, row);
        if stacked.1.Some? {
          return Err(stacked.1.value);
        }
        arrays := stacked.0;
        row := [];
      } else if t == "]" {
        var stacked := Stack(arrays, row);
        if stacked.1.Some? {
          return Err(stacked.1.value);
        }
        return Ok(stacked.0);
      } else {
        var v := parseFloat(t);
        if v.None? {
          return Err(BadNumber(t));
        }
        row := row + [v.value];
      }
    }
    return Ok(arrays);
  }

  /** `ParseMatlab`: tokenizes txt and runs the token loop. A parse error is
      returned with no matrix; otherwise the rows stacked become a dense
      matrix (none stacked is the source's panic, NoRows here). */
  method ParseMatlab(txt: string, parseFloat: string -> Option<real>) returns (A: Dense.DenseMatrix?, err: Option<ParseError>)
    ensures Parsed(txt, false, parseFloat).Err? ==> A == null && err == Some(Parsed(txt, false, parseFloat).error)
    ensures Parsed(txt, false, parseFloat) == Ok([]) ==> A == null && err == Some(NoRows)
    ensures Parsed(txt, false, parseFloat).Ok? && Parsed(txt, false, parseFloat).value != [] ==>
              && err == None && A != null && fresh(A) && A.Valid()
              && Aligned(Parsed(txt, false, parseFloat).value)
              && A.View() == FromRows(Parsed(txt, false, parseFloat).value)
  {
    RunAligned(Tokens(Fields(txt), false), [], [], parseFloat);
    var tk := new Tokenizer(Fields(txt));
    var res := ReadRows(tk, parseFloat);
    if res.Err? {
      return null, Some(res.error);
    }
    if res.value == [] {
      return null, Some(NoRows);
    }
    A := Dense.MakeDenseMatrixStacked(res.value);
    err := None;
  }
}
