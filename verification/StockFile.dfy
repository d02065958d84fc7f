/**
 What `read_stockfile` makes of an arbitrary text: its words, however they are separated, are taken
 three at a time, and each three become one record.  What `_print_to_buf` writes is told the same way,
 character by character.
 */
module StockFile {
  import opened Machine
  import opened StockTree
  import opened StockText

  predicate Blank(s: string) { forall i :: 0 <= i < |s| ==> IsSpace(s[i]) }

  // ---------------------------------------------------------------- a text as words and gaps

  /** Words with a gap before each and one at the end. */
  function Laid(gaps: seq<string>, words: seq<string>): string
    requires |gaps| == |words| + 1
  {
    if words == [] then gaps[0] else gaps[0] + words[0] + Laid(gaps[1..], words[1..])
  }

  /** White space of any kind and length, possibly none before the first word and after the last. */
  predicate Layout(gaps: seq<string>, words: seq<string>) {
    && |gaps| == |words| + 1
    && (forall k :: 0 <= k < |gaps| ==> Blank(gaps[k]))
    && (forall k :: 0 < k < |words| ==> gaps[k] != "")
    && (forall k :: 0 <= k < |words| ==> Word(words[k]))
  }

  /** One more word in front. */
  lemma LaidCons(gap: string, word: string, gaps: seq<string>, words: seq<string>)
    requires Layout(gaps, words) && Blank(gap) && Word(word) && (words != [] ==> gaps[0] != "")
    ensures Layout([gap] + gaps, [word] + words)
    ensures Laid([gap] + gaps, [word] + words) == gap + word + Laid(gaps, words)
  {
    assert ([gap] + gaps)[1..] == gaps && ([word] + words)[1..] == words;
  }

  lemma LayoutTail(gaps: seq<string>, words: seq<string>)
    requires Layout(gaps, words) && words != []
    ensures Layout(gaps[1..], words[1..])
  {}

  /** Behind a word of a layout there is white space or the end. */
  lemma BehindWord(gaps: seq<string>, words: seq<string>)
    requires Layout(gaps, words) && words != []
    ensures var rest := Laid(gaps[1..], words[1..]); rest == "" || IsSpace(rest[0])
  {
    if gaps[1] != "" { assert IsSpace(gaps[1][0]); }
  }

  lemma {:induction false} SkipBlank(b: string, s: string)
    requires Blank(b)
    ensures SkipSpace(b + s) == SkipSpace(s)
  {
    if b == "" {
      assert b + s == s;
    } else {
      assert (b + s)[1..] == b[1..] + s;
      SkipBlank(b[1..], s);
    }
  }

  lemma {:induction false} WordLengthIs(s: string, t: string)
    requires (forall i :: 0 <= i < |s| ==> !IsSpace(s[i])) && (t == "" || IsSpace(t[0]))
    ensures WordLength(s + t) == |s|
  {
    if s == "" {
      assert s + t == t;
    } else {
      assert (s + t)[1..] == s[1..] + t;
      WordLengthIs(s[1..], t);
    }
  }

  /** `%s` takes the next word of a layout, or meets the end of the file. */
  lemma ScanLaid(gaps: seq<string>, words: seq<string>)
    requires Layout(gaps, words)
    ensures ScanWord(Laid(gaps, words)) == if words == [] then (None, "") else (Some(words[0]), Laid(gaps[1..], words[1..]))
  {
    if words == [] {
      SkipBlank(gaps[0], "");
      assert gaps[0] + "" == gaps[0];
    } else {
      var w, rest := words[0], Laid(gaps[1..], words[1..]);
      BehindWord(gaps, words);
      SkipBlank(gaps[0], w + rest);
      assert Laid(gaps, words) == gaps[0] + (w + rest);
      assert (w + rest)[0] == w[0];
      assert SkipSpace(w + rest) == w + rest;
      WordLengthIs(w, rest);
      assert (w + rest)[..|w|] == w && (w + rest)[|w|..] == rest;
    }
  }

  // ---------------------------------------------------------------- reading

  /** The word buffers after the next up to three words. */
  function Filled(words: seq<string>, w: Words): Words {
    Words(if |words| > 0 then words[0] else w.id, if |words| > 1 then words[1] else w.count,
          if |words| > 2 then words[2] else w.price)
  }

  /** One record for every three words; words missing at the end are those read before. */
  function Records(words: seq<string>, w: Words): seq<Record> {
    [Converted(Filled(words, w))] + (if |words| > 3 then Records(words[3..], Filled(words, w)) else [])
  }

  /** What one `fscanf` leaves: nothing, or a text that starts with the fourth word. */
  lemma ScanThree(gaps: seq<string>, words: seq<string>, w: Words)
    requires Layout(gaps, words)
    ensures Scan(Laid(gaps, words), w).0 == Filled(words, w)
    ensures |words| <= 3 ==> Scan(Laid(gaps, words), w).1 == ""
    ensures |words| > 3 ==>
      && Layout([""] + gaps[4..], words[3..])
      && Scan(Laid(gaps, words), w).1 == Laid([""] + gaps[4..], words[3..]) != ""
  {
    hide ScanWord, Laid;
    ScanLaid(gaps, words);
    if |words| > 0 {
      LayoutTail(gaps, words);
      ScanLaid(gaps[1..], words[1..]);
      if |words| > 1 {
        LayoutTail(gaps[1..], words[1..]);
        assert gaps[1..][1..] == gaps[2..] && words[1..][1..] == words[2..];
        ScanLaid(gaps[2..], words[2..]);
        if |words| > 2 {
          LayoutTail(gaps[2..], words[2..]);
          assert gaps[2..][1..] == gaps[3..] && words[2..][1..] == words[3..];
          SkipLaid(gaps[3..], words[3..]);
          if |words| > 3 { assert gaps[3..][1..] == gaps[4..]; }
        }
      }
    }
  }

  /** The white space that closes the format eats the gap before the next word. */
  lemma SkipLaid(gaps: seq<string>, words: seq<string>)
    requires Layout(gaps, words)
    ensures if words == [] then SkipSpace(Laid(gaps, words)) == ""
            else SkipSpace(Laid(gaps, words)) == Laid([""] + gaps[1..], words) != ""
  {
    if words == [] {
      SkipBlank(gaps[0], "");
      assert gaps[0] + "" == gaps[0];
    } else {
      var w, rest := words[0], Laid(gaps[1..], words[1..]);
      SkipBlank(gaps[0], w + rest);
      assert Laid(gaps, words) == gaps[0] + (w + rest);
      assert (w + rest)[0] == w[0];
      assert ([""] + gaps[1..])[1..] == gaps[1..];
      assert "" + w + rest == w + rest;
    }
  }

  /** Reading inserts one record for every three words of the text, whatever separates them. */
  lemma {:induction false} ReadLaid(t: Tree, gaps: seq<string>, words: seq<string>, w: Words)
    requires Layout(gaps, words)
    ensures Read(t, Laid(gaps, words), w) == InsertAll(t, Records(words, w))
    decreases |words|
  {
    hide Scan, Laid, Converted, Layout;
    ScanThree(gaps, words, w);
    var w' := Filled(words, w);
    if |words| > 3 {
      ReadLaid(Insert(t, Converted(w')), [""] + gaps[4..], words[3..], w') by { LayoutSizes(gaps, words); }
      assert Records(words, w)[1..] == Records(words[3..], w');
    } else {
      assert Records(words, w)[1..] == [];
    }
  }

  lemma LayoutSizes(gaps: seq<string>, words: seq<string>)
    requires Layout(gaps, words)
    ensures |gaps| == |words| + 1
  {}

  /** Every text is such a layout, so this says what any file is read as. */
  lemma {:induction false} EveryTextIsLaid(text: string) returns (gaps: seq<string>, words: seq<string>)
    ensures Layout(gaps, words) && Laid(gaps, words) == text
    decreases |text|
  {
    hide Laid, Layout;
    var rest := SkipSpace(text);
    var gap := BlankFront(text);
    if rest == "" {
      gaps, words := [text], [];
      OneGap(text);
    } else {
      var n := WordLength(rest);
      WordFront(rest);
      gaps, words := EveryTextIsLaid(rest[n..]);
      LayoutSizes(gaps, words);
      assert words != [] ==> gaps[0] != "" by {
        if words != [] && gaps[0] == "" { FirstGap(gaps, words); }
      }
      LaidCons(gap, rest[..n], gaps, words);
      gaps, words := [gap] + gaps, [rest[..n]] + words;
      assert gap + rest[..n] + rest[n..] == gap + rest;
    }
  }

  /** A layout without a gap before its first word starts with that word. */
  lemma FirstGap(gaps: seq<string>, words: seq<string>)
    requires Layout(gaps, words) && words != [] && gaps[0] == ""
    ensures Laid(gaps, words) != "" && !IsSpace(Laid(gaps, words)[0])
  {
    assert Laid(gaps, words)[0] == words[0][0];
  }

  lemma {:induction false} BlankFront(text: string) returns (gap: string)
    ensures Blank(gap) && text == gap + SkipSpace(text)
  {
    if text == "" || !IsSpace(text[0]) {
      gap := "";
    } else {
      gap := BlankFront(text[1..]);
      gap := [text[0]] + gap;
    }
  }

  lemma {:induction false} WordFront(s: string)
    ensures var n := WordLength(s);
      && (forall i :: 0 <= i < n ==> !IsSpace(s[i])) && (n == |s| || IsSpace(s[n]))
      && (s != "" && !IsSpace(s[0]) ==> n > 0)
  {
    if s != "" && !IsSpace(s[0]) {
      WordFront(s[1..]);
      forall i | 0 <= i < WordLength(s) ensures !IsSpace(s[i]) {
        if i > 0 { assert s[1..][i - 1] == s[i]; }
      }
    }
  }

  // ---------------------------------------------------------------- printed records

  /** The words of printed records. */
  function WordsFor(rs: seq<Record>): seq<string> {
    if rs == [] then [] else [Decimal(rs[0].id), Decimal(rs[0].count), Decimal(rs[0].price)] + WordsFor(rs[1..])
  }

  lemma {:induction false} RecordsOfPrinted(rs: seq<Record>, w: Words)
    requires rs != []
    ensures Records(WordsFor(rs), w) == rs
  {
    hide Decimal, Atoi;
    var r, ws := rs[0], WordsFor(rs);
    AtoiOfDecimal(r.id);
    AtoiOfDecimal(r.count);
    AtoiOfDecimal(r.price);
    assert ws[3..] == WordsFor(rs[1..]);
    assert Filled(ws, w) == WordsOf(r);
    if |rs| > 1 {
      RecordsOfPrinted(rs[1..], WordsOf(r));
    } else {
      assert rs[1..] == [];
    }
  }

  /** Printed records come back each once and in order, whatever white space is before, between and after them. */
  lemma ReadPrinted(t: Tree, gaps: seq<string>, rs: seq<Record>, w: Words)
    requires rs != [] && Layout(gaps, WordsFor(rs))
    ensures Read(t, Laid(gaps, WordsFor(rs)), w) == InsertAll(t, rs)
  {
    ReadLaid(t, gaps, WordsFor(rs), w);
    RecordsOfPrinted(rs, w);
  }

  /** Blank lines and blanks after the last line change nothing. */
  lemma TrailingBlanks(t: Tree, rs: seq<Record>, blanks: string, w: Words)
    requires rs != [] && Blank(blanks)
    ensures Read(t, Lines(rs) + blanks, w) == InsertAll(t, rs)
  {
    var gaps := LinesAreLaid(rs, blanks);
    ReadPrinted(t, gaps, rs, w);
  }

  lemma {:induction false} LinesAreLaid(rs: seq<Record>, blanks: string) returns (gaps: seq<string>)
    requires Blank(blanks)
    ensures Layout(gaps, WordsFor(rs)) && Laid(gaps, WordsFor(rs)) == Lines(rs) + blanks
    ensures rs != [] ==> gaps[0] == ""
  {
    hide Decimal, Layout;
    if rs == [] {
      gaps := [blanks];
      assert Layout(gaps, []) by { OneGap(blanks); }
      assert Lines(rs) + blanks == blanks;
    } else {
      var g := LinesAreLaid(rs[1..], blanks);
      gaps := LineBefore(rs[0], g, WordsFor(rs[1..]));
      assert Line(rs[0]) + (Lines(rs[1..]) + blanks) == Lines(rs) + blanks;
    }
  }

  lemma OneGap(b: string)
    requires Blank(b)
    ensures Layout([b], []) && Laid([b], []) == b
  {}

  lemma LineBefore(r: Record, gaps: seq<string>, words: seq<string>) returns (g: seq<string>)
    requires Layout(gaps, words)
    ensures var ws := [Decimal(r.id), Decimal(r.count), Decimal(r.price)] + words;
      Layout(g, ws) && Laid(g, ws) == Line(r) + Laid(gaps, words) && g[0] == ""
  {
    hide Decimal, Layout, Laid;
    var a, b, c := Decimal(r.id), Decimal(r.count), Decimal(r.price);
    DecimalIsWord(r.id);
    DecimalIsWord(r.count);
    DecimalIsWord(r.price);
    LayoutSizes(gaps, words);
    g := [['\n'] + gaps[0]] + gaps[1..];
    LaidAfter("\n", gaps, words);
    LaidCons(" ", c, g, words);
    LaidCons(" ", b, [" "] + g, [c] + words);
    LaidCons("", a, [" "] + ([" "] + g), [b] + ([c] + words));
    g := [""] + ([" "] + ([" "] + g));
    assert [a] + ([b] + ([c] + words)) == [a, b, c] + words;
    assert "" + a + (" " + b + (" " + c + ("\n" + Laid(gaps, words)))) == Line(r) + Laid(gaps, words);
  }

  /** White space put before a layout lengthens its first gap. */
  lemma LaidAfter(b: string, gaps: seq<string>, words: seq<string>)
    requires Layout(gaps, words) && Blank(b)
    ensures Layout([b + gaps[0]] + gaps[1..], words)
    ensures Laid([b + gaps[0]] + gaps[1..], words) == b + Laid(gaps, words)
  {
    assert ([b + gaps[0]] + gaps[1..])[1..] == gaps[1..];
  }

  // ---------------------------------------------------------------- numbers and lines, character by character

  /** The number that a row of digits stands for. */
  function Value(s: string): nat
    requires AllDigits(s)
  {
    if s == "" then 0 else 10 * Value(s[..|s| - 1]) + DigitValue(s[|s| - 1])
  }

  /** `s` is `n` in decimal: digits, no zero in front of others, a minus exactly for negative numbers and never a plus. */
  predicate Denotes(s: string, n: int) {
    if n < 0 then s != "" && s[0] == '-' && Denotes(s[1..], -n)
    else s != "" && AllDigits(s) && Value(s) == n && (|s| == 1 || s[0] != '0')
  }

  lemma {:induction false} ValuePositive(s: string)
    requires s != "" && AllDigits(s) && s[0] != '0'
    ensures Value(s) > 0
  {
    if |s| > 1 { ValuePositive(s[..|s| - 1]); }
  }

  lemma {:induction false} DigitsExactly(s: string, n: nat)
    ensures s == Digits(n) <==> Denotes(s, n)
    decreases n
  {
    DigitsAreDigits(n);
    if n < 10 {
      OneDigit(s, n);
    } else {
      var p := Digits(n / 10);
      DigitsExactly(p, n / 10);
      var t := p + [DigitChar(n % 10)];
      assert t[..|t| - 1] == p;
      assert Denotes(t, n);
      if Denotes(s, n) {
        ShortValue(s);
        ValuePositive(s[..|s| - 1]);
        DigitsExactly(s[..|s| - 1], n / 10);
        assert s == s[..|s| - 1] + [s[|s| - 1]];
      }
    }
  }

  lemma OneDigit(s: string, n: nat)
    requires n < 10
    ensures s == Digits(n) <==> Denotes(s, n)
  {
    if Denotes(s, n) && |s| > 1 {
      ValuePositive(s[..|s| - 1]);
    } else if |s| == 1 && IsDigit(s[0]) {
      SingleValue(s[0]);
      assert s == [s[0]];
    }
  }

  lemma SingleValue(c: char)
    requires IsDigit(c)
    ensures Value([c]) == DigitValue(c) < 10 && DigitChar(DigitValue(c)) == c
  {
    assert [c][..0] == "";
  }

  lemma ShortValue(s: string)
    requires AllDigits(s)
    ensures |s| <= 1 ==> Value(s) < 10
  {
    if |s| == 1 {
      SingleValue(s[0]);
      assert s == [s[0]];
    }
  }

  /** `%d` prints exactly that. */
  lemma DecimalExactly(s: string, n: int)
    ensures s == Decimal(n) <==> Denotes(s, n)
  {
    if n < 0 {
      if s != "" {
        DigitsExactly(s[1..], -n);
        assert s == [s[0]] + s[1..];
        assert Decimal(n)[1..] == Digits(-n);
      }
    } else {
      DigitsExactly(s, n);
    }
  }

  /** A printed line: three numbers with one blank between them and one newline at the end. */
  lemma LineExactly(s: string, r: Record)
    ensures s == Line(r) <==>
      exists a, b, c :: Denotes(a, r.id) && Denotes(b, r.count) && Denotes(c, r.price) && s == a + " " + b + " " + c + "\n"
  {
    hide Decimal, Denotes;
    var a, b, c := Decimal(r.id), Decimal(r.count), Decimal(r.price);
    DecimalExactly(a, r.id);
    DecimalExactly(b, r.count);
    DecimalExactly(c, r.price);
    assert Line(r) == a + " " + b + " " + c + "\n";
    forall x, y, z | Denotes(x, r.id) && Denotes(y, r.count) && Denotes(z, r.price) ensures x == a && y == b && z == c {
      DecimalExactly(x, r.id);
      DecimalExactly(y, r.count);
      DecimalExactly(z, r.price);
    }
  }

  lemma {:induction false} ReadDigitsIs(ds: string, rest: string)
    requires AllDigits(ds) && (rest == "" || !IsDigit(rest[0]))
    ensures ReadDigits(ds + rest, 0) == Value(ds)
    decreases |ds|
  {
    if ds == "" {
      assert ds + rest == rest;
    } else {
      var p, d := ds[..|ds| - 1], [ds[|ds| - 1]];
      ReadDigitsIs(p, "");
      assert p + "" == p;
      ReadDigitsConcat(p, d + rest, 0);
      assert ds + rest == p + (d + rest);
      assert (d + rest)[1..] == rest;
    }
  }

  /** `atoi` skips white space, takes one sign and then digits, and leaves what follows them; without digits it gives 0. */
  lemma AtoiExactly(blank: string, sign: string, digits: string, rest: string)
    requires Blank(blank) && (sign == "" || sign == "-" || sign == "+") && AllDigits(digits)
    requires rest == "" || !IsDigit(rest[0])
    requires sign + digits == "" && rest != "" ==> !IsSpace(rest[0]) && rest[0] != '-' && rest[0] != '+'
    ensures Atoi(blank + (sign + (digits + rest))) == Wrap32(if sign == "-" then 0 - Value(digits) else Value(digits))
  {
    var s := sign + (digits + rest);
    SkipBlank(blank, s);
    assert SkipSpace(s) == s by {
      if sign != "" { assert s[0] == sign[0]; } else if digits != "" { assert s[0] == digits[0]; }
    }
    ReadDigitsIs(digits, rest);
    if sign == "" {
      assert s == digits + rest;
      if digits != "" { assert s[0] == digits[0]; }
    } else {
      assert s[0] == sign[0] && s[1..] == digits + rest;
    }
  }
}
