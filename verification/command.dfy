/**
 * The command language: `Operation::read_command` turns one input line into
 * an operation on the company directory. Unrecognised or incomplete input
 * becomes `Help`; only a blank line is outside its domain (the source
 * unwraps the first word and would panic).
 */
module Command {
  import opened Tokens

  /** The payload of an `add` command. */
  datatype Add = Add(name: string, department: string)

  /** Which people a `ret` command lists. */
  datatype Retrieve = Department(department: string) | Company

  datatype Operation =
    | AddPerson(add: Add)
    | RetrievePeople(retrieve: Retrieve)
    | Help
    | Quit

  /** The case of the keyword does not matter; it is compared after lower-casing. */
  predicate IsKeyword(word: string, keyword: string) {
    Lower(word) == keyword
  }

  /** Whether the keyword selects one of the four commands. */
  predicate IsCommandKeyword(word: string) {
    Lower(word) in {"add", "ret", "retrieve", "q", "quit"}
  }

  /**
   * Parses one line. Every string an operation carries is a word of the line,
   * taken verbatim: non-empty and free of whitespace.
   */
  function ReadCommand(input: string): (op: Operation)
    requires Split(input) != []
    ensures op.AddPerson? ==> op.add.name in Split(input) && op.add.department in Split(input)
    ensures op.AddPerson? ==> IsToken(op.add.name) && IsToken(op.add.department)
    ensures op.RetrievePeople? && op.retrieve.Department? ==> op.retrieve.department in Split(input)
    ensures op.RetrievePeople? && op.retrieve.Department? ==> IsToken(op.retrieve.department)
  {
    var words := Split(input);
    var keyword := Lower(words[0]);
    if keyword == "add" then
      // the name is the second word; the third (the connector "to") is skipped
      if |words| < 2 then Help
      else if |words| < 4 then Help
      else AddPerson(Add(words[1], words[3]))
    else if keyword == "ret" || keyword == "retrieve" then
      if |words| < 2 then RetrievePeople(Company)
      else RetrievePeople(Department(words[1]))
    else if keyword == "q" || keyword == "quit" then Quit
    else Help
  }

  /** The forms a parsed line can take and the input that leads to each. */
  lemma Outcomes(input: string)
    requires Split(input) != []
    ensures var words := Split(input);
      && (ReadCommand(input).AddPerson? <==> IsKeyword(words[0], "add") && |words| >= 4)
      && (ReadCommand(input).RetrievePeople? <==>
            IsKeyword(words[0], "ret") || IsKeyword(words[0], "retrieve"))
      && (ReadCommand(input) == Quit <==> IsKeyword(words[0], "q") || IsKeyword(words[0], "quit"))
      && (ReadCommand(input) == Help <==>
            !IsCommandKeyword(words[0]) || (IsKeyword(words[0], "add") && |words| < 4))
  {
  }

  /** A line of four or more words led by `add` adds its second word to its fourth. */
  lemma {:induction false} ParseAdd(keyword: string, name: string, connector: string,
                                    department: string, extra: seq<string>)
    requires IsKeyword(keyword, "add")
    requires IsToken(keyword) && IsToken(name) && IsToken(connector) && IsToken(department)
    requires forall k :: 0 <= k < |extra| ==> IsToken(extra[k])
    ensures var line := Unwords([keyword, name, connector, department] + extra);
      Split(line) != [] && ReadCommand(line) == AddPerson(Add(name, department))
  {
    SplitUnwords([keyword, name, connector, department] + extra);
  }

  /** `add` with no name, or with no department after the connector, asks for help. */
  lemma {:induction false} ParseAddIncomplete(keyword: string, rest: seq<string>)
    requires IsKeyword(keyword, "add") && IsToken(keyword)
    requires |rest| <= 2 && forall k :: 0 <= k < |rest| ==> IsToken(rest[k])
    ensures var line := Unwords([keyword] + rest);
      Split(line) != [] && ReadCommand(line) == Help
  {
    SplitUnwords([keyword] + rest);
  }

  /** `ret`/`retrieve` with a word after it lists that department, its case kept. */
  lemma {:induction false} ParseRetrieveDepartment(keyword: string, department: string,
                                                   extra: seq<string>)
    requires IsKeyword(keyword, "ret") || IsKeyword(keyword, "retrieve")
    requires IsToken(keyword) && IsToken(department)
    requires forall k :: 0 <= k < |extra| ==> IsToken(extra[k])
    ensures var line := Unwords([keyword, department] + extra);
      Split(line) != [] && ReadCommand(line) == RetrievePeople(Department(department))
  {
    SplitUnwords([keyword, department] + extra);
  }

  /** `ret`/`retrieve` alone lists the whole company. */
  lemma ParseRetrieveCompany(keyword: string)
    requires IsKeyword(keyword, "ret") || IsKeyword(keyword, "retrieve")
    requires IsToken(keyword)
    ensures Split(keyword) != [] && ReadCommand(keyword) == RetrievePeople(Company)
  {
  }

  /** `q`/`quit` quits, whatever follows; any other keyword asks for help. */
  lemma {:induction false} ParseOther(keyword: string, extra: seq<string>)
    requires IsToken(keyword) && !IsKeyword(keyword, "add")
    requires !IsKeyword(keyword, "ret") && !IsKeyword(keyword, "retrieve")
    requires forall k :: 0 <= k < |extra| ==> IsToken(extra[k])
    ensures var line := Unwords([keyword] + extra);
      && Split(line) != []
      && ReadCommand(line) == if IsCommandKeyword(keyword) then Quit else Help
  {
    SplitUnwords([keyword] + extra);
  }

  /** The words of a line spelling out `op` in the syntax the help text shows. */
  function Render(op: Operation): seq<string> {
    match op
    case AddPerson(Add(name, department)) => ["add", name, "to", department]
    case RetrievePeople(Department(department)) => ["ret", department]
    case RetrievePeople(Company) => ["ret"]
    case Help => ["help"]
    case Quit => ["quit"]
  }

  /** The strings an operation carries are single words. */
  ghost predicate Typeable(op: Operation) {
    match op
    case AddPerson(Add(name, department)) => IsToken(name) && IsToken(department)
    case RetrievePeople(Department(department)) => IsToken(department)
    case _ => true
  }

  /** Every operation whose strings are single words is read back from its rendering. */
  lemma {:induction false} RenderRoundTrip(op: Operation)
    requires Typeable(op)
    ensures Split(Unwords(Render(op))) != [] && ReadCommand(Unwords(Render(op))) == op
  {
    assert IsToken("add") && IsToken("to") && IsToken("ret") && IsToken("help") && IsToken("quit");
    assert Lower("add") == "add" && Lower("ret") == "ret";
    assert Lower("help") == "help" && Lower("quit") == "quit";
    match op
    case AddPerson(Add(name, department)) =>
      ParseAdd("add", name, "to", department, []);
      assert [ "add", name, "to", department] + [] == Render(op);
    case RetrievePeople(Department(department)) =>
      ParseRetrieveDepartment("ret", department, []);
      assert ["ret", department] + [] == Render(op);
    case RetrievePeople(Company) =>
      ParseRetrieveCompany("ret");
    case Help =>
      ParseOther("help", []);
      assert ["help"] + [] == Render(op);
    case Quit =>
      ParseOther("quit", []);
      assert ["quit"] + [] == Render(op);
  }

  /** The newline a line is read with does not change the command. */
  lemma {:induction false} ReadCommandIgnoresNewline(input: string)
    requires Split(input) != []
    ensures Split(input + "\n") != [] && ReadCommand(input + "\n") == ReadCommand(input)
  {
    SplitTrailingWhitespace(input, '\n');
  }
}
