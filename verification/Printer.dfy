/** The compact printed form of a JSON value, character by character. */
module Printer {
  import opened Json
  import opened JsonText

  function Print(v: Json): string
    decreases v, 0
  {
    match v
    case Null => "null"
    case Bool(b) => if b then "true" else "false"
    case Number(n) => NumberText(n)
    case String(s) => Quote(s)
    case Array(items) => "[" + PrintItems(items, true)
    case Object(entries) => "{" + PrintEntries(entries, true)
  }

  /** A comma goes before every member but the first. */
  function Separator(first: bool): string {
    if first then "" else ","
  }

  /** The rest of an array, with its closing bracket. */
  function PrintItems(items: seq<Json>, first: bool): string
    decreases items, 1
  {
    if items == [] then "]"
    else Separator(first) + Print(items[0]) + PrintItems(items[1..], false)
  }

  /** The rest of an object, with its closing brace. */
  function PrintEntries(entries: seq<Entry>, first: bool): string
    decreases entries, 1
  {
    if entries == [] then "}"
    else Separator(first) + (Quote(entries[0].key) + ":" + Print(entries[0].value)) + PrintEntries(entries[1..], false)
  }

  /** The first character tells what kind of value is printed, and is never a closing or separating one. */
  lemma PrintOpens(v: Json)
    ensures Print(v) != "" && Print(v)[0] !in {']', '}', ',', ':'}
    ensures match v
            case Null => Print(v)[0] == 'n'
            case Bool(b) => Print(v)[0] == if b then 't' else 'f'
            case Number(n) => IsNumberChar(Print(v)[0])
            case String(_) => Print(v)[0] == '\"'
            case Array(_) => Print(v)[0] == '['
            case Object(_) => Print(v)[0] == '{'
  {
    hide NumberText, Escape;
    if v.Number? {
      NumberTextIsNumeric(v.n);
    }
  }

  /** An array's rest followed by `x`; its first character tells whether an item follows. */
  lemma ItemsUnfold(items: seq<Json>, first: bool, x: string)
    ensures var p := PrintItems(items, first) + x;
            && p != "" && (if items == [] then p == "]" + x && p[0] == ']'
                else p == Separator(first) + (Print(items[0]) + (PrintItems(items[1..], false) + x)) && p[0] != ']')
            && (!first ==> Delimited(p))
  {
    hide Print;
    if items != [] {
      PrintOpens(items[0]);
      var p, c, r := Print(items[0]), Separator(first), PrintItems(items[1..], false);
      assert c + p + r + x == c + (p + (r + x));
    }
  }

  lemma EntriesUnfold(entries: seq<Entry>, first: bool, x: string)
    ensures var p := PrintEntries(entries, first) + x;
            && p != "" && (if entries == [] then p == "}" + x && p[0] == '}'
                else p == Separator(first) + (Quote(entries[0].key)
                            + (":" + (Print(entries[0].value) + (PrintEntries(entries[1..], false) + x)))) && p[0] != '}')
            && (!first ==> Delimited(p))
  {
    hide Print, Escape;
    if entries != [] {
      var p, c, r := Print(entries[0].value), Separator(first), PrintEntries(entries[1..], false);
      var k := Quote(entries[0].key);
      assert c + (k + ":" + p) + r + x == c + (k + (":" + (p + (r + x))));
    }
  }
}
