/** The table of directive handlers (`parsers` in `parser.go`), kept as an
    explicit value rather than a global map. */
module Parsers {
  import opened Results

  /** A directive handler: `(fileName, lineNumber, inputLine)` to the
      replacement text or an error. */
  type Handler = (string, int, string) -> Result<string>

  /** Handlers keyed by the directive's first field, `.` included. */
  type Table = map<string, Handler>

  /** Names `RegisterParser` accepts. */
  predicate ValidName(name: string) {
    name != "" && name[0] != ';'
  }

  /** Every key is `"." + name` for an accepted name. */
  predicate WellKeyed(table: Table) {
    forall key :: key in table ==> |key| >= 2 && key[0] == '.' && ValidName(key[1..])
  }

  /** `RegisterParser`: an empty name or one starting with `;` is refused
      (the source panics); otherwise the handler is stored under
      `"." + name`, replacing any earlier one, and nothing else changes. */
  function RegisterParser(table: Table, name: string, handler: Handler): (r: Result<Table>)
    ensures r.Err? <==> !ValidName(name)
    ensures r.Err? ==> r.error == InvalidName(name)
    ensures r.Ok? ==> r.value.Keys == table.Keys + {"." + name}
    ensures r.Ok? ==> r.value["." + name] == handler
    ensures r.Ok? ==> forall key :: key in table && key != "." + name ==> r.value[key] == table[key]
    ensures r.Ok? && WellKeyed(table) ==> WellKeyed(r.value)
  {
    if !ValidName(name) then Err(InvalidName(name))
    else
      var key := "." + name;
      assert key[1..] == name;
      Ok(table[key := handler])
  }
}
