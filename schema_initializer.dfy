/**
  The startup routine that applies the schema script and then the data
  script. Each statement the loader would send to the store is appended to
  the ghost log `executed` instead.
 */
module SchemaInitializer {
  import opened CqlScript

  class CassandraSchemaInitializer {
    /** The statements sent to the store so far, in order. */
    ghost var executed: seq<string>

    constructor ()
      ensures executed == []
    {
      executed := [];
    }

    /** Reads a script line by line, gathering lines in a buffer and
        executing the buffer each time a trimmed line ends in ';'. */
    method ExecuteCqlScript(lines: seq<string>)
      modifies this
      ensures executed == old(executed) + Split(lines)
    {
      var query := "";
      var i := 0;
      while i < |lines|
        invariant 0 <= i <= |lines|
        invariant executed + Scan(lines[i..], query) == old(executed) + Scan(lines, "")
      {
        ScanAt(lines, i, query);
        var line := Trim(lines[i]);
        if IsSkipped(line) {
          i := i + 1;
          continue;
        }
        query := query + line;
        if EndsWithSemicolon(line) {
          var cql := Trim(query);
          executed := executed + [cql];
          query := "";
        } else {
          query := query + " ";
        }
        i := i + 1;
      }
      ScanIsSplit(lines);
    }

    /** Runs the schema script to the end, then the data script. */
    method Run(schema: seq<string>, data: seq<string>)
      modifies this
      ensures executed == old(executed) + Split(schema) + Split(data)
    {
      ExecuteCqlScript(schema);
      ExecuteCqlScript(data);
    }
  }

  /** The buffer belongs to one script: an unterminated fragment at the end
      of the schema script is dropped and does not prefix the first data
      statement, although the two lines read as one script would form one
      statement. */
  lemma ScriptsKeepSeparateBuffers(fragment: string, statement: string)
    requires IsKeptLine(fragment) && !EndsWithSemicolon(fragment)
    requires IsKeptLine(statement) && EndsWithSemicolon(statement)
    ensures Split([fragment]) + Split([statement]) == [statement]
    ensures Split([fragment, statement]) == [fragment + " " + statement]
  {
    TrimTrimmed(fragment);
    TrimTrimmed(statement);
    assert [fragment] + [] == [fragment] && [statement] + [] == [statement];
    assert [fragment] + [statement] == [fragment, statement];
    KeptCons(fragment, []);
    KeptCons(statement, []);
    KeptCons(fragment, [statement]);
    assert Kept([fragment, statement]) == [fragment, statement];
    StatementsUnterminated([fragment]);
    FirstTerminatorIs([statement], 0);
    assert [statement][..1] == [statement] && [statement][1..] == [];
    FirstTerminatorIs([], 0);
    StatementsOfPair(fragment, statement);
  }
}
