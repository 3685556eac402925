/** The command table `COMMANDS` and `parser` of main.py: which handler a line
    of input selects, and the arguments it is called with. */
module Parser {
  import opened Base
  import opened PyStr

  /** The functions `COMMANDS` maps, plus `unknown`, which `parser` falls back to. */
  datatype Command =
    | AddRecord | AddBirthday | AddPhone | ChangeRecord | DaysToBirthday
    | DelRecord | EndProgram | FindRecord | FindPhone | Hello | Help
    | Phone | ShowAll | RemovePhone | Unknown

  /** `COMMANDS[c]`: the keyword of each function in the table. */
  function Keyword(c: Command): (kw: string)
    requires c != Unknown
    ensures kw != [] && forall j :: 0 <= j < |kw| ==> !IsSpace(kw[j])
  {
    match c
    case AddRecord => "add"
    case AddBirthday => "add_b"
    case AddPhone => "add_phone"
    case ChangeRecord => "change"
    case DaysToBirthday => "days_to_birthday"
    case DelRecord => "delete"
    case EndProgram => "exit"
    case FindRecord => "find"
    case FindPhone => "find_phone"
    case Hello => "hello"
    case Help => "help"
    case Phone => "phone"
    case ShowAll => "show_all"
    case RemovePhone => "remove_phone"
  }

  /** The keys of `COMMANDS`, in the order `items()` visits them. */
  const Table: seq<Command> := [
    AddRecord, AddBirthday, AddPhone, ChangeRecord, DaysToBirthday, DelRecord,
    EndProgram, FindRecord, FindPhone, Hello, Help, Phone, ShowAll, RemovePhone
  ]

  /** The table holds every command but `unknown`, each once. */
  lemma TableComplete()
    ensures forall c :: c in Table <==> c != Unknown
    ensures forall i, j :: 0 <= i < j < |Table| ==> Table[i] != Table[j]
  {
  }

  /** No two commands share a keyword. */
  lemma KeywordInjective(a: Command, b: Command)
    requires a != Unknown && b != Unknown && Keyword(a) == Keyword(b)
    ensures a == b
  {
  }

  /** The keyword a line selects by: its first word, lower-cased, provided the
      line starts with that word rather than with white space. */
  function Head(text: string): (h: Option<string>)
    ensures h.Some? ==> text != [] && !IsSpace(text[0]) && Words(text) != []
  {
    if text != [] && !IsSpace(text[0]) then
      WordsHead(text);
      Some(Lower(Words(text)[0]))
    else None
  }

  /** The test `parser` applies to each keyword: the lower-cased line starts
      with it and it equals the lower-cased first word of the right-stripped
      line. (A keyword the line starts with always leaves a first word, so
      `command[0]` never fails.) */
  predicate Matches(text: string, kw: string) {
    var command := Words(RStrip(text));
    StartsWith(Lower(text), kw) && command != [] && kw == Lower(command[0])
  }

  /** A keyword matches exactly when it is the line's head. */
  lemma MatchesHead(text: string, kw: string)
    requires kw != [] && !IsSpace(kw[0])
    ensures Matches(text, kw) <==> Head(text) == Some(kw)
  {
    WordsRStrip(text);
    if Matches(text, kw) {
      assert Lower(text)[0] == kw[0];
      assert !IsSpace(text[0]);
    }
    if Head(text) == Some(kw) {
      WordsHead(text);
      var n := TokenLength(text);
      assert Lower(text)[..n] == Lower(text[..n]);
    }
  }

  /** When a keyword matches, the arguments `parser` passes on are the words
      of the line after its first. */
  lemma MatchedArgs(text: string, kw: string)
    requires kw != [] && !IsSpace(kw[0])
    requires Matches(text, kw)
    ensures Words(Strip(text[|kw|..])) == Words(text)[1..]
  {
    MatchesHead(text, kw);
    WordsHead(text);
    WordsStrip(text[|kw|..]);
    assert text[..TokenLength(text)] == Words(text)[0];
  }

  /** `parser(text)`: tries the keywords in table order and returns the first
      whose test passes, with the words after the keyword as arguments; with
      none, `unknown` and no arguments. The result is the one command whose
      keyword is the line's head, whatever the table's order. */
  method Parse(text: string) returns (cmd: Command, args: seq<string>)
    ensures cmd != Unknown ==> Head(text) == Some(Keyword(cmd)) && args == Words(text)[1..]
    ensures cmd == Unknown <==> forall c :: c != Unknown ==> Head(text) != Some(Keyword(c))
    ensures cmd == Unknown ==> args == []
  {
    TableComplete();
    for i := 0 to |Table|
      invariant forall j :: 0 <= j < i ==> Head(text) != Some(Keyword(Table[j]))
    {
      var c := Table[i];
      var kw := Keyword(c);
      var command := Words(RStrip(text));
      MatchesHead(text, kw);
      if StartsWith(Lower(text), kw) && command != [] && kw == Lower(command[0]) {
        MatchedArgs(text, kw);
        return c, Words(Strip(text[|kw|..]));
      }
    }
    forall c | c != Unknown
      ensures Head(text) != Some(Keyword(c))
    {
      assert c in Table;
      var j :| 0 <= j < |Table| && Table[j] == c;
    }
    return Unknown, [];
  }
}
