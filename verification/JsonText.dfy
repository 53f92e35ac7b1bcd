/** How the leaves of canonical JSON are written: escaped strings and decimal numbers. */
module JsonText {
  import opened Json

  // ----- Strings -----

  function HexDigit(n: nat): char
    requires n < 16
  {
    if n < 10 then ('0' as int + n) as char else ('a' as int + n - 10) as char
  }

  function EscapeChar(c: char): string {
    if c == '\"' then ['\\', '\"']
    else if c == '\\' then ['\\', '\\']
    else if c as int == 0x08 then ['\\', 'b']
    else if c as int == 0x09 then ['\\', 't']
    else if c as int == 0x0A then ['\\', 'n']
    else if c as int == 0x0C then ['\\', 'f']
    else if c as int == 0x0D then ['\\', 'r']
    else if c as int < 0x20 then ['\\', 'u', '0', '0', HexDigit(c as int / 16), HexDigit(c as int % 16)]
    else [c]
  }

  function Escape(s: string): string {
    if s == "" then "" else EscapeChar(s[0]) + Escape(s[1..])
  }

  function Quote(s: string): string {
    ['\"'] + Escape(s) + ['\"']
  }

  lemma EscapeCharOpens(c: char)
    ensures |EscapeChar(c)| > 0 && EscapeChar(c)[0] != '\"'
  {
  }

  /** The rest of a quoted string; its first character tells whether the string goes on. */
  lemma EscapeUnfolds(s: string, x: string)
    ensures var p := Escape(s) + (['\"'] + x);
            if s == "" then p == ['\"'] + x && p[0] == '\"'
            else p == EscapeChar(s[0]) + (Escape(s[1..]) + (['\"'] + x)) && p[0] != '\"'
  {
    hide EscapeChar;
    if s != "" {
      EscapeCharOpens(s[0]);
      var c, r, q := EscapeChar(s[0]), Escape(s[1..]), ['\"'] + x;
      assert c + r + q == c + (r + q);
    }
  }

  // ----- Numbers -----

  function Digits(n: nat): string {
    if n < 10 then [('0' as int + n) as char] else Digits(n / 10) + [('0' as int + n % 10) as char]
  }

  function NumberText(n: Number): string {
    match n
    case Whole(value) => if value < 0 then "-" + Digits(-value) else Digits(value)
    case Float(text) => text
  }

  lemma {:induction false} DigitsAreDigits(n: nat)
    ensures |Digits(n)| > 0 && forall i :: 0 <= i < |Digits(n)| ==> '0' <= Digits(n)[i] <= '9'
  {
    if n < 10 {
    } else {
      DigitsAreDigits(n / 10);
    }
  }

  lemma NumberTextIsNumeric(n: Number)
    ensures |NumberText(n)| > 0 && forall i :: 0 <= i < |NumberText(n)| ==> IsNumberChar(NumberText(n)[i])
    ensures n.Whole? ==> forall i :: 0 <= i < |NumberText(n)| ==> NumberText(n)[i] !in {'.', 'e', 'E'}
  {
    hide Digits;
    if n.Whole? {
      DigitsAreDigits(if n.value < 0 then -n.value else n.value);
    }
  }

  /** What may follow a value: nothing, or a character that no number contains. */
  predicate Delimited(x: string) {
    x == "" || x[0] in {',', ']', '}'}
  }
}
