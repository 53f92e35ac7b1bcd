/**
 A reader for compact JSON, written from the grammar (RFC 8259): values, members, every escape of a
 string, and the decimal value of digits.  It knows nothing of the printer.
 */
module JsonReader {
  import opened Json
  import opened JsonText
  import opened Printer
  import opened Wrappers

  // ----- Strings -----

  function HexValue(c: char): Option<nat> {
    if '0' <= c <= '9' then Some(c as int - '0' as int)
    else if 'a' <= c <= 'f' then Some(c as int - 'a' as int + 10)
    else if 'A' <= c <= 'F' then Some(c as int - 'A' as int + 10)
    else None
  }

  /** The character that an escape at the start of `t` stands for, and what follows it. */
  function ReadEscape(t: string): (r: Option<(char, string)>)
    ensures r.Some? ==> |r.value.1| < |t|
  {
    if |t| < 2 || t[0] != '\\' then None
    else if t[1] == '\"' then Some(('\"', t[2..]))
    else if t[1] == '\\' then Some(('\\', t[2..]))
    else if t[1] == '/' then Some(('/', t[2..]))
    else if t[1] == 'b' then Some((0x08 as char, t[2..]))
    else if t[1] == 'f' then Some((0x0C as char, t[2..]))
    else if t[1] == 'n' then Some((0x0A as char, t[2..]))
    else if t[1] == 'r' then Some((0x0D as char, t[2..]))
    else if t[1] == 't' then Some((0x09 as char, t[2..]))
    else if t[1] == 'u' && |t| >= 6 then
      match (HexValue(t[2]), HexValue(t[3]), HexValue(t[4]), HexValue(t[5]))
      case (Some(a), Some(b), Some(c), Some(d)) =>
        var u := a * 4096 + b * 256 + c * 16 + d;
        if u < 0xD800 || 0xE000 <= u < 0x10000 then Some((u as char, t[6..])) else None
      case _ => None
    else None
  }

  /** The first character of a string's text, written plainly or as an escape. */
  function ReadChar(t: string): (r: Option<(char, string)>)
    ensures r.Some? ==> |r.value.1| < |t|
  {
    if t == "" || t[0] == '\"' || t[0] as int < 0x20 then None
    else if t[0] == '\\' then ReadEscape(t)
    else Some((t[0], t[1..]))
  }

  /** The rest of a string behind its opening quote, through its closing quote. */
  function ReadString(t: string): (r: Option<(string, string)>)
    ensures r.Some? ==> |r.value.1| < |t|
    decreases |t|
  {
    if t == "" then None
    else if t[0] == '\"' then Some(("", t[1..]))
    else match ReadChar(t)
      case None => None
      case Some((c, rest)) =>
        match ReadString(rest)
        case None => None
        case Some((s, after)) => Some(([c] + s, after))
  }

  // ----- Numbers -----

  function DecimalValue(digits: string): Option<nat> {
    if digits == "" then Some(0)
    else
      var n := |digits| - 1;
      match DecimalValue(digits[..n])
      case None => None
      case Some(v) => if '0' <= digits[n] <= '9' then Some(v * 10 + (digits[n] as int - '0' as int)) else None
  }

  function ReadWhole(text: string): Option<int> {
    var negative := text != "" && text[0] == '-';
    var digits := if negative then text[1..] else text;
    var magnitude := DecimalValue(digits);
    if digits == "" || magnitude.None? then None
    else Some(if negative then 0 - magnitude.value else magnitude.value)
  }

  function NumberLen(t: string): (n: nat)
    ensures n <= |t|
  {
    if t != "" && IsNumberChar(t[0]) then 1 + NumberLen(t[1..]) else 0
  }

  function ReadNumber(t: string): (r: Option<(Number, string)>)
    ensures r.Some? ==> |r.value.1| < |t|
  {
    var n := NumberLen(t);
    var text := t[..n];
    if n == 0 then None
    else if IsFloatText(text) then Some((Float(text), t[n..]))
    else match ReadWhole(text) case None => None case Some(v) => Some((Whole(v), t[n..]))
  }

  // ----- Values -----

  function ReadValue(t: string): (r: Option<(Json, string)>)
    ensures r.Some? ==> |r.value.1| < |t|
    decreases |t|, 0
  {
    if t == "" then None
    else if "null" <= t then Some((Null, t[4..]))
    else if "true" <= t then Some((Bool(true), t[4..]))
    else if "false" <= t then Some((Bool(false), t[5..]))
    else if t[0] == '\"' then
      match ReadString(t[1..]) case None => None case Some((s, rest)) => Some((String(s), rest))
    else if t[0] == '[' then
      if "[]" <= t then Some((Array([]), t[2..]))
      else match ReadItems(t[1..]) case None => None case Some((items, rest)) => Some((Array(items), rest))
    else if t[0] == '{' then
      if "{}" <= t then Some((Object([]), t[2..]))
      else match ReadMembers(t[1..]) case None => None case Some((entries, rest)) => Some((Object(entries), rest))
    else match ReadNumber(t) case None => None case Some((n, rest)) => Some((Number(n), rest))
  }

  /** At least one item, through the closing bracket. */
  function ReadItems(t: string): (r: Option<(seq<Json>, string)>)
    ensures r.Some? ==> |r.value.1| < |t|
    decreases |t|, 1
  {
    match ReadValue(t)
    case None => None
    case Some((v, rest)) =>
      if rest != "" && rest[0] == ']' then Some(([v], rest[1..]))
      else if rest != "" && rest[0] == ',' then
        match ReadItems(rest[1..]) case None => None case Some((items, after)) => Some(([v] + items, after))
      else None
  }

  /** At least one member, through the closing brace. */
  function ReadMembers(t: string): (r: Option<(seq<Entry>, string)>)
    ensures r.Some? ==> |r.value.1| < |t|
    decreases |t|, 1
  {
    if t == "" || t[0] != '\"' then None
    else match ReadString(t[1..])
      case None => None
      case Some((key, behindKey)) =>
        if behindKey == "" || behindKey[0] != ':' then None
        else match ReadValue(behindKey[1..])
          case None => None
          case Some((v, rest)) =>
            if rest != "" && rest[0] == '}' then Some(([Entry(key, v)], rest[1..]))
            else if rest != "" && rest[0] == ',' then
              match ReadMembers(rest[1..])
              case None => None
              case Some((entries, after)) => Some(([Entry(key, v)] + entries, after))
            else None
  }

  // ----- The reader recovers what the printer writes -----

  lemma ReadsEscapedChar(c: char, x: string)
    ensures ReadChar(EscapeChar(c) + x) == Some((c, x))
  {
    var e := EscapeChar(c);
    var t := e + x;
    assert forall k :: 0 <= k < |e| ==> t[k] == e[k];
    assert t[|e|..] == x;
    if |e| == 6 {
      ReadsHex(c as int / 16);
      ReadsHex(c as int % 16);
    }
  }

  lemma ReadsHex(n: nat)
    requires n < 16
    ensures HexValue(HexDigit(n)) == Some(n)
  {
  }

  lemma {:induction false} ReadsQuoted(s: string, x: string)
    ensures ReadString(Escape(s) + (['\"'] + x)) == Some((s, x))
  {
    hide EscapeChar, ReadChar;
    EscapeUnfolds(s, x);
    if s == "" {
      assert (['\"'] + x)[1..] == x;
    } else {
      ReadsEscapedChar(s[0], Escape(s[1..]) + (['\"'] + x));
      ReadsQuoted(s[1..], x);
      assert [s[0]] + s[1..] == s;
    }
  }

  lemma {:induction false} ReadsDigits(n: nat)
    ensures DecimalValue(Digits(n)) == Some(n)
  {
    if n < 10 {
      assert Digits(n)[..0] == "";
    } else {
      ReadsDigits(n / 10);
      assert Digits(n)[..|Digits(n)| - 1] == Digits(n / 10);
    }
  }

  lemma ReadsWhole(value: int)
    ensures ReadWhole(NumberText(Whole(value))) == Some(value)
  {
    hide Digits, DecimalValue;
    var m := if value < 0 then -value else value;
    DigitsAreDigits(m);
    ReadsDigits(m);
    if value < 0 {
      assert ("-" + Digits(m))[1..] == Digits(m);
    }
  }

  lemma {:induction false} NumberLenOf(text: string, x: string)
    requires (forall i :: 0 <= i < |text| ==> IsNumberChar(text[i])) && Delimited(x)
    ensures NumberLen(text + x) == |text|
  {
    if text == "" {
      assert text + x == x;
    } else {
      NumberLenOf(text[1..], x);
      assert (text + x)[1..] == text[1..] + x;
    }
  }

  lemma ReadsNumber(n: Number, x: string)
    requires Delimited(x)
    ensures ReadNumber(NumberText(n) + x) == Some((n, x))
  {
    hide NumberText, ReadWhole, NumberLen;
    var text := NumberText(n);
    NumberTextIsNumeric(n);
    NumberLenOf(text, x);
    assert (text + x)[..|text|] == text && (text + x)[|text|..] == x;
    match n {
      case Whole(value) => ReadsWhole(value);
      case Float(f) => FloatTextIsItself(f);
    }
  }

  lemma FloatTextIsItself(f: FloatText)
    ensures NumberText(Float(f)) == f
  {
  }

  /** Whatever is printed is read back, with the rest of the text untouched. */
  lemma {:induction false} ReadsPrinted(v: Json, x: string)
    requires Delimited(x)
    ensures ReadValue(Print(v) + x) == Some((v, x))
    decreases v, 0
  {
    hide NumberText, Escape, PrintItems, PrintEntries, ReadString, ReadNumber, ReadItems, ReadMembers;
    var t := Print(v) + x;
    PrintOpens(v);
    assert t[0] == Print(v)[0];
    match v {
      case Number(n) =>
        ReadsNumber(n, x);
      case String(s) =>
        assert t[1..] == Escape(s) + (['\"'] + x);
        ReadsQuoted(s, x);
      case Array(items) =>
        assert t[1..] == PrintItems(items, true) + x;
        ItemsUnfold(items, true, x);
        if items == [] {
          assert t[2..] == x;
        } else {
          assert t[1] == (PrintItems(items, true) + x)[0];
          ReadsItems(items, x);
        }
      case Object(entries) =>
        assert t[1..] == PrintEntries(entries, true) + x;
        EntriesUnfold(entries, true, x);
        if entries == [] {
          assert t[2..] == x;
        } else {
          assert t[1] == (PrintEntries(entries, true) + x)[0];
          ReadsMembers(entries, x);
        }
      case _ =>
        assert t[|Print(v)|..] == x;
    }
  }

  /** Different values print differently, and neither printed form is the start of the other. */
  lemma PrintReadsBack(a: Json, b: Json, x: string, y: string)
    requires Print(a) + x == Print(b) + y && Delimited(x) && Delimited(y)
    ensures a == b && x == y
  {
    hide Print, ReadValue;
    ReadsPrinted(a, x);
    ReadsPrinted(b, y);
  }

  lemma {:induction false} ReadsItems(items: seq<Json>, x: string)
    requires items != []
    ensures ReadItems(PrintItems(items, true) + x) == Some((items, x))
    decreases items, 1
  {
    hide Print, PrintItems, ReadValue;
    var rest := PrintItems(items[1..], false) + x;
    ItemsUnfold(items, true, x);
    ItemsUnfold(items[1..], false, x);
    assert Separator(true) + (Print(items[0]) + rest) == Print(items[0]) + rest;
    ReadsPrinted(items[0], rest);
    assert items == [items[0]] + items[1..];
    if items[1..] == [] {
      assert items == [items[0]] && rest[1..] == x;
    } else {
      ItemsUnfold(items[1..], true, x);
      var u := Print(items[1..][0]) + (PrintItems(items[1..][1..], false) + x);
      assert rest == "," + u && Separator(true) + u == u;
      assert rest[1..] == PrintItems(items[1..], true) + x;
      ReadsItems(items[1..], x);
    }
  }

  lemma {:induction false} ReadsMembers(entries: seq<Entry>, x: string)
    requires entries != []
    ensures ReadMembers(PrintEntries(entries, true) + x) == Some((entries, x))
    decreases entries, 1
  {
    hide Print, PrintEntries, Escape, ReadValue, ReadString;
    var e := entries[0];
    var rest := PrintEntries(entries[1..], false) + x;
    var tail := ":" + (Print(e.value) + rest);
    var t := PrintEntries(entries, true) + x;
    EntriesUnfold(entries, true, x);
    EntriesUnfold(entries[1..], false, x);
    assert t == Quote(e.key) + tail;
    assert t[0] == '\"' && t[1..] == Escape(e.key) + (['\"'] + tail);
    ReadsQuoted(e.key, tail);
    assert tail[1..] == Print(e.value) + rest;
    ReadsPrinted(e.value, rest);
    assert entries == [e] + entries[1..];
    if entries[1..] == [] {
      assert entries == [e] && rest[1..] == x;
    } else {
      MembersAfterComma(entries[1..], x);
      ReadsMembers(entries[1..], x);
    }
  }

  lemma MembersAfterComma(entries: seq<Entry>, x: string)
    requires entries != []
    ensures var rest := PrintEntries(entries, false) + x;
            rest[0] == ',' && rest[1..] == PrintEntries(entries, true) + x
  {
    hide Print, PrintEntries, Quote;
    EntriesUnfold(entries, false, x);
    EntriesUnfold(entries, true, x);
    var u := Quote(entries[0].key) + (":" + (Print(entries[0].value) + (PrintEntries(entries[1..], false) + x)));
    assert Separator(true) + u == u && Separator(false) + u == "," + u;
    assert ("," + u)[1..] == u;
  }

  // ----- Which of the possible spellings the printer chooses -----

  /** The text `e` is one way to write the character `c` in a string. */
  predicate Spells(e: string, c: char) {
    ReadChar(e) == Some((c, ""))
  }

  /** Every spelling is the character itself, a backslash with one character, or one with four hexadecimal digits. */
  lemma SpellingLengths(e: string, c: char)
    requires Spells(e, c)
    ensures |e| in {1, 2, 6} && (|e| == 1 <==> e[0] != '\\')
    ensures |e| == 1 ==> e == [c] && EscapeChar(c) == [c]
  {
    if |e| == 1 {
      assert e == [e[0]];
    }
  }

  lemma ShortSpelling(e: string, c: char)
    requires Spells(e, c) && |e| == 2
    ensures |EscapeChar(c)| <= 2 && (|EscapeChar(c)| == 2 ==> e == EscapeChar(c))
  {
    hide HexValue;
    assert e == [e[0], e[1]];
  }

  lemma LongSpelling(e: string, c: char)
    requires Spells(e, c) && |e| == 6 && |EscapeChar(c)| == 6
    requires forall k :: 2 <= k < 6 ==> !('A' <= e[k] <= 'F')
    ensures e == EscapeChar(c)
  {
    hide HexValue, HexDigit;
    assert e[0] == '\\' && e[1] == 'u';
    HexOfValue(e[2]);
    HexOfValue(e[3]);
    HexOfValue(e[4]);
    HexOfValue(e[5]);
    assert HexValue(e[2]).Some? && HexValue(e[3]).Some? && HexValue(e[4]).Some? && HexValue(e[5]).Some?;
    assert HexDigit(0) == '0' by { HexZero(); }
    assert e == [e[0], e[1], e[2], e[3], e[4], e[5]];
  }

  lemma HexZero()
    ensures HexDigit(0) == '0'
  {
  }

  lemma HexOfValue(c: char)
    ensures HexValue(c).Some? ==> HexValue(c).value < 16
    ensures HexValue(c).Some? && !('A' <= c <= 'F') ==> HexDigit(HexValue(c).value) == c
  {
  }

  /** No spelling of the character is shorter, and none as short has other hexadecimal digits than lower-case ones. */
  lemma EscapeIsShortest(c: char, e: string)
    requires Spells(e, c)
    ensures Spells(EscapeChar(c), c) && |EscapeChar(c)| <= |e|
    ensures |EscapeChar(c)| == |e| && (forall k :: 2 <= k < |e| ==> !('A' <= e[k] <= 'F')) ==> e == EscapeChar(c)
  {
    hide ReadChar, EscapeChar;
    ReadsEscapedChar(c, "");
    assert EscapeChar(c) + "" == EscapeChar(c);
    SpellingLengths(e, c);
    SpellingLengths(EscapeChar(c), c);
    if |e| == 2 {
      ShortSpelling(e, c);
    }
    if |e| == 6 && |EscapeChar(c)| == 6 && forall k :: 2 <= k < |e| ==> !('A' <= e[k] <= 'F') {
      LongSpelling(e, c);
    }
  }

  /** Digits have no leading zero. */
  lemma {:induction false} DigitsHaveNoLeadingZero(n: nat)
    ensures Digits(n)[0] == '0' ==> n == 0 && Digits(n) == "0"
  {
    if n < 10 {
    } else {
      DigitsAreDigits(n / 10);
      DigitsHaveNoLeadingZero(n / 10);
      assert Digits(n)[0] == Digits(n / 10)[0];
    }
  }
}
