/**
 The stock table as text: `_print_to_buf` writes one line "id count price" per record in preorder,
 `read_stockfile` scans words with `fscanf` and converts them with `atoi`.
 */
module StockText {
  import opened Machine
  import opened StockTree

  // ---------------------------------------------------------------- %d and atoi

  predicate IsDigit(c: char) { '0' <= c <= '9' }

  predicate IsSpace(c: char) { c == ' ' || ('\t' <= c <= '\r') }

  function DigitChar(d: int): char
    requires 0 <= d < 10
  {
    '0' + d as char
  }

  function DigitValue(c: char): int
    requires IsDigit(c)
  {
    c as int - '0' as int
  }

  function Digits(n: nat): string {
    if n < 10 then [DigitChar(n)] else Digits(n / 10) + [DigitChar(n % 10)]
  }

  /** `%d`. */
  function Decimal(n: int): string {
    if n < 0 then "-" + Digits(-n) else Digits(n)
  }

  /** The digits of `atoi`, up to the first character that is none. */
  function ReadDigits(s: string, acc: int): int {
    if s == "" || !IsDigit(s[0]) then acc else ReadDigits(s[1..], 10 * acc + DigitValue(s[0]))
  }

  function SkipSpace(s: string): (r: string)
    ensures |r| <= |s| && (r == "" || !IsSpace(r[0]))
  {
    if s == "" || !IsSpace(s[0]) then s else SkipSpace(s[1..])
  }

  /** `atoi`; a number outside `int` keeps its low 32 bits. */
  function Atoi(s0: string): int32 {
    var s := SkipSpace(s0);
    if s == "" then 0
    else if s[0] == '-' then Wrap32(-ReadDigits(s[1..], 0))
    else if s[0] == '+' then Wrap32(ReadDigits(s[1..], 0))
    else Wrap32(ReadDigits(s, 0))
  }

  predicate AllDigits(s: string) { forall i :: 0 <= i < |s| ==> IsDigit(s[i]) }

  lemma {:induction false} DigitsAreDigits(n: nat)
    ensures AllDigits(Digits(n)) && Digits(n) != ""
  {
    if n >= 10 { DigitsAreDigits(n / 10); }
  }

  lemma {:induction false} ReadDigitsConcat(s: string, t: string, acc: int)
    requires AllDigits(s)
    ensures ReadDigits(s + t, acc) == ReadDigits(t, ReadDigits(s, acc))
    decreases |s|
  {
    if s == "" {
      assert s + t == t;
    } else {
      assert (s + t)[1..] == s[1..] + t;
      ReadDigitsConcat(s[1..], t, 10 * acc + DigitValue(s[0]));
    }
  }

  lemma {:induction false} ReadBack(n: nat)
    ensures ReadDigits(Digits(n), 0) == n
  {
    if n < 10 {
      assert [DigitChar(n)][1..] == "";
    } else {
      ReadBack(n / 10);
      DigitsAreDigits(n / 10);
      var last := [DigitChar(n % 10)];
      ReadDigitsConcat(Digits(n / 10), last, 0);
      assert last[1..] == "";
    }
  }

  /** A word: non-empty, without white space. */
  predicate Word(s: string) { s != "" && forall i :: 0 <= i < |s| ==> !IsSpace(s[i]) }

  lemma DecimalIsWord(n: int)
    ensures Word(Decimal(n))
  {
    DigitsAreDigits(if n < 0 then -n else n);
  }

  lemma AtoiOfDecimal(n: int32)
    ensures Atoi(Decimal(n)) == n
  {
    var m: nat := if n < 0 then 0 - n else n;
    DigitsAreDigits(m);
    ReadBack(m);
    DecimalIsWord(n);
    assert SkipSpace(Decimal(n)) == Decimal(n);
    if n < 0 { assert Decimal(n)[1..] == Digits(m); } else { assert IsDigit(Digits(m)[0]); }
  }

  // ---------------------------------------------------------------- printing

  function Line(r: Record): string {
    Decimal(r.id) + " " + Decimal(r.count) + " " + Decimal(r.price) + "\n"
  }

  function Lines(rs: seq<Record>): string {
    if rs == [] then "" else Line(rs[0]) + Lines(rs[1..])
  }

  /** What `_print_to_buf` appends for a tree. */
  function Print(t: Tree): string {
    match t
    case Leaf => ""
    case Node(left, r, right) => Line(r) + Print(left) + Print(right)
  }

  lemma {:induction false} LinesConcat(rs: seq<Record>, qs: seq<Record>)
    ensures Lines(rs + qs) == Lines(rs) + Lines(qs)
  {
    if rs == [] {
      assert rs + qs == qs;
    } else {
      assert (rs + qs)[1..] == rs[1..] + qs;
      LinesConcat(rs[1..], qs);
    }
  }

  lemma {:induction false} PrintIsPreorder(t: Tree)
    ensures Print(t) == Lines(Preorder(t))
  {
    match t
    case Leaf =>
    case Node(left, r, right) =>
      PrintIsPreorder(left);
      PrintIsPreorder(right);
      LinesConcat([r] + Preorder(left), Preorder(right));
      LinesConcat([r], Preorder(left));
      assert Lines([r]) == Line(r) by { assert [r][1..] == []; assert Line(r) + "" == Line(r); }
  }

  // ---------------------------------------------------------------- scanning

  /** The three word buffers of `read_stockfile`; a failed conversion leaves the old word in place. */
  datatype Words = Words(id: string, count: string, price: string)

  function WordLength(s: string): (n: nat)
    ensures n <= |s|
  {
    if s == "" || IsSpace(s[0]) then 0 else 1 + WordLength(s[1..])
  }

  /** `%s`: the next word, or None at end of file. */
  function ScanWord(text: string): (r: (Option<string>, string))
    ensures |r.1| <= |text| && (r.0.Some? ==> |r.1| < |text|) && (r.0.None? ==> r.1 == "")
  {
    var s := SkipSpace(text);
    var n := WordLength(s);
    if s == "" then (None, "") else (Some(s[..n]), s[n..])
  }

  /** One `fscanf` of "%s %s %s\n": the buffers afterwards and the text left. */
  function Scan(text: string, w: Words): (r: (Words, string))
    ensures r.1 == "" || |r.1| < |text|
  {
    var (a, r1) := ScanWord(text);
    if a.None? then (w, "")
    else
      var (b, r2) := ScanWord(r1);
      if b.None? then (w.(id := a.value), "")
      else
        var (c, r3) := ScanWord(r2);
        if c.None? then (w.(id := a.value, count := b.value), "")
        else (Words(a.value, b.value, c.value), SkipSpace(r3))
  }

  function Converted(w: Words): Record { Record(Atoi(w.id), Atoi(w.count), Atoi(w.price)) }

  /** `read_stockfile`: scan and insert once, then as long as the end of the text was not met. */
  function Read(t: Tree, text: string, w: Words): Tree
    decreases |text|
  {
    var (w', rest) := Scan(text, w);
    var t' := Insert(t, Converted(w'));
    if rest == "" then t' else Read(t', rest, w')
  }

  lemma {:induction false} WordLengthOf(s: string, t: string)
    requires forall i :: 0 <= i < |s| ==> !IsSpace(s[i])
    requires t != "" && IsSpace(t[0])
    ensures WordLength(s + t) == |s|
  {
    if s == "" {
      assert s + t == t;
    } else {
      assert (s + t)[1..] == s[1..] + t;
      WordLengthOf(s[1..], t);
    }
  }

  lemma ScanWordOf(s: string, t: string)
    requires Word(s) && t != "" && IsSpace(t[0])
    ensures ScanWord(s + t) == (Some(s), t)
  {
    WordLengthOf(s, t);
    assert (s + t)[0] == s[0];
    assert SkipSpace(s + t) == s + t;
    assert (s + t)[..|s|] == s && (s + t)[|s|..] == t;
  }

  /** A word after one blank. */
  lemma ScanWordAfter(s: string, t: string, c: char)
    requires Word(s) && t != "" && IsSpace(t[0]) && IsSpace(c)
    ensures ScanWord([c] + s + t) == (Some(s), t)
  {
    ScanWordOf(s, t);
    assert ([c] + s + t)[1..] == s + t;
    assert SkipSpace([c] + s + t) == SkipSpace(s + t);
  }

  function WordsOf(r: Record): Words { Words(Decimal(r.id), Decimal(r.count), Decimal(r.price)) }

  predicate StartsWithWord(s: string) { s == "" || !IsSpace(s[0]) }

  lemma ScanLine(r: Record, rest: string, w: Words)
    requires StartsWithWord(rest)
    ensures Scan(Line(r) + rest, w) == (WordsOf(r), rest)
  {
    hide Decimal, ScanWord;
    var a, b, c := Decimal(r.id), Decimal(r.count), Decimal(r.price);
    DecimalIsWord(r.id);
    DecimalIsWord(r.count);
    DecimalIsWord(r.price);
    var t3 := "\n" + rest;
    var t2 := " " + c + t3;
    var t1 := " " + b + t2;
    assert Line(r) + rest == a + t1;
    ScanWordOf(a, t1);
    ScanWordAfter(b, t2, ' ');
    ScanWordAfter(c, t3, ' ');
    assert SkipSpace(t3) == rest by { assert t3[1..] == rest; }
  }

  lemma {:induction false} LinesStart(rs: seq<Record>)
    ensures StartsWithWord(Lines(rs)) && (rs != [] ==> Lines(rs) != "")
  {
    if rs != [] {
      DecimalIsWord(rs[0].id);
      assert Lines(rs)[0] == Decimal(rs[0].id)[0];
    }
  }

  /** Reading printed lines back inserts exactly the printed records, in order. */
  lemma {:induction false} ReadLines(t: Tree, rs: seq<Record>, w: Words)
    requires rs != []
    ensures Read(t, Lines(rs), w) == InsertAll(t, rs)
    decreases |rs|
  {
    hide Decimal, Scan, Line;
    var r := rs[0];
    LinesStart(rs[1..]);
    ScanLine(r, Lines(rs[1..]), w);
    AtoiOfDecimal(r.id);
    AtoiOfDecimal(r.count);
    AtoiOfDecimal(r.price);
    assert Converted(WordsOf(r)) == r;
    if |rs| > 1 {
      ReadLines(Insert(t, r), rs[1..], WordsOf(r));
    } else {
      assert rs[1..] == [];
    }
  }

  lemma {:induction false} ReadOrdered(t: Tree, text: string, w: Words)
    requires Ordered(t)
    ensures Ordered(Read(t, text, w)) && Read(t, text, w) != Leaf
    decreases |text|
  {
    hide Scan;
    var (w', rest) := Scan(text, w);
    InsertOrdered(t, Converted(w'));
    if rest != "" { ReadOrdered(Insert(t, Converted(w')), rest, w'); }
  }

  // ---------------------------------------------------------------- saving to a buffer and loading again

  /** `_print_to_buf` into a buffer of `room` bytes, the last for the closing zero; None if a `strcat` runs over its end. */
  function PrintInto(t: Tree, buf: string, room: nat): Option<string> {
    match t
    case Leaf => Some(buf)
    case Node(left, r, right) =>
      var buf' := buf + Line(r);
      if |buf'| >= room then None
      else
        match PrintInto(left, buf', room)
        case None => None
        case Some(b) => PrintInto(right, b, room)
  }

  /** It runs over exactly if the whole text does not fit. */
  lemma {:induction false} PrintIntoExactly(t: Tree, buf: string, room: nat)
    requires |buf| < room
    ensures PrintInto(t, buf, room) == if |buf| + |Print(t)| < room then Some(buf + Print(t)) else None
  {
    hide Line;
    match t
    case Leaf => assert buf + "" == buf;
    case Node(left, r, right) =>
      var buf' := buf + Line(r);
      if |buf'| < room {
        PrintIntoExactly(left, buf', room);
        if |buf'| + |Print(left)| < room {
          PrintIntoExactly(right, buf' + Print(left), room);
          assert buf' + Print(left) + Print(right) == buf + Print(t);
        }
      }
  }

  function Pow10(k: nat): nat { if k == 0 then 1 else 10 * Pow10(k - 1) }

  lemma {:induction false} DigitsLength(n: nat, k: nat)
    requires n < Pow10(k) && k > 0
    ensures |Digits(n)| <= k
  {
    if n >= 10 { DigitsLength(n / 10, k - 1); }
  }

  /** A printed `int` has at most 11 characters. */
  lemma DecimalLength(n: int32)
    ensures |Decimal(n)| <= 11
  {
    assert Pow10(5) == 100_000;
    assert Pow10(10) == 10_000_000_000;
    DigitsLength(if n < 0 then 0 - n else n, 10);
  }

  const LONGEST_LINE: nat := 36

  /** Tables of up to (room - 1) / 36 records always fit: 227 of them in 8192 bytes. */
  lemma {:induction false} PrintLength(t: Tree)
    ensures |Print(t)| <= LONGEST_LINE * |Preorder(t)|
  {
    hide Decimal;
    match t
    case Leaf =>
    case Node(left, r, right) =>
      DecimalLength(r.id);
      DecimalLength(r.count);
      DecimalLength(r.price);
      PrintLength(left);
      PrintLength(right);
      assert |Line(r)| <= LONGEST_LINE;
  }

  /** Saved to a buffer and loaded again a table is the same exactly when it fits and is a non-empty search tree. */
  lemma SaveLoadExactly(t: Tree, w: Words, room: nat)
    requires room > 0
    ensures var text := PrintInto(t, "", room);
      text.Some? && Read(Leaf, text.value, w) == t <==> |Print(t)| < room && t != Leaf && Ordered(t)
  {
    hide Read, Print, Preorder, PrintInto;
    PrintIntoExactly(t, "", room);
    assert "" + Print(t) == Print(t);
    ReadOrdered(Leaf, Print(t), w);
    if t != Leaf && Ordered(t) {
      PrintIsPreorder(t);
      assert Preorder(t) != [] by { PreorderNonEmpty(t); }
      ReadLines(Leaf, Preorder(t), w);
      Rebuild(t);
    }
  }

  lemma PreorderNonEmpty(t: Tree)
    requires t != Leaf
    ensures Preorder(t) != []
  {}

  /** An empty table comes back with one record made of whatever the word buffers held. */
  lemma EmptyTableReload(w: Words)
    ensures Read(Leaf, Print(Leaf), w) == Node(Leaf, Converted(w), Leaf)
  {}
}
