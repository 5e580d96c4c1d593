# spring-cassandra-demo: the schema loader and the user handlers in Dafny

The service is a small CRUD API for one `User` resource stored in a
Cassandra table, plus a startup routine. That routine replays two CQL
scripts: first the schema script, then the data script. This project
models the two parts of the code that hold logic.

- **The CQL statement splitter** (`CassandraSchemaInitializer`). A script
  is read line by line. Each line is trimmed the way Java's `String.trim`
  does it: every character up to U+0020 is removed from both ends. A line
  that is then empty, or starts with `--`, is dropped. Every other line is
  appended to a buffer. A line that does not end in `;` is followed by one
  space. When a line ends in `;`, the trimmed buffer is executed and the
  buffer is cleared. A fragment still in the buffer at end of input is
  dropped. `run` does this for the schema script and then for the data
  script.
  - `CqlScript.Split` is the reference definition. It takes the kept
    lines, groups them up to each line that ends in `;`, and joins each
    group with single spaces.
  - `CqlScript.Scan` is the reading loop written as a function of the
    remaining lines and the buffer.
  - `SchemaInitializer.CassandraSchemaInitializer.ExecuteCqlScript` is the
    loop itself, over a local buffer. It appends each statement to the
    ghost log `executed`; the real code sends the statement to the store
    at that point.
- **The REST handlers** (`UserController`) over a repository that holds a
  `map` from id to row. `UserRepository` is not part of this model (only
  its interface is called). `Repository.UserRepository` states the
  contract the controller relies on, as a map-backed class: point lookup,
  keyed upsert, unconditional delete, and a full scan in no set order.
  `User` is a datatype whose four fields are optional (`None` is Java's
  null). The id is a 128-bit UUID and the age is a 32-bit `Integer`. The
  structural `equals` of `User` is datatype equality.

The trim that the loader applies to a finished buffer never changes it.
The buffer always starts with a trimmed, non-empty line and ends with `;`
(`ExecutedTrimIsIdentity`). So an executed statement is exactly the
joined lines.

## Model

| member | source | states |
|---|---|---|
| `CqlScript.Trim` | src/main/java/com/prosoft/util/CassandraSchemaInitializer.java:48 | Java `String.trim` on one line. It never lengthens the line. The exact result is stated by `TrimSpec`. |
| `CqlScript.TrimSpec` | src/main/java/com/prosoft/util/CassandraSchemaInitializer.java:48 | `Trim` (Java `String.trim`) leaves no character `<= ' '` at either end. Its result is the contiguous part of the input that starts after the leading blanks. Every input character outside that part is `<= ' '`. |
| `CqlScript.LeadingBlanksSpec` | src/main/java/com/prosoft/util/CassandraSchemaInitializer.java:48 | `LeadingBlanks` counts leading characters `<= ' '`. All of them are blank, and the next character, if there is one, is not. |
| `CqlScript.TrailingBlanksSpec` | src/main/java/com/prosoft/util/CassandraSchemaInitializer.java:48 | `TrailingBlanks` counts trailing characters `<= ' '`. It has the same two sides as `LeadingBlanksSpec`. |
| `CqlScript.TrimTrimmed` | src/main/java/com/prosoft/util/CassandraSchemaInitializer.java:56 | Trimming a string with no blank at either end returns it unchanged. |
| `CqlScript.Kept` | src/main/java/com/prosoft/util/CassandraSchemaInitializer.java:47-53 | The read loop's filter: each line is trimmed, and a line that is then empty or starts with `--` is dropped. There are at most as many kept lines as input lines. What the kept lines look like is stated by `KeptLines` and `KeptConcat`. |
| `CqlScript.KeptLines` | src/main/java/com/prosoft/util/CassandraSchemaInitializer.java:47-53 | The lines that `Kept` lets reach the buffer are trimmed, non-empty and not `--` comments. There are no more of them than input lines. |
| `CqlScript.KeptConcat` | src/main/java/com/prosoft/util/CassandraSchemaInitializer.java:47-53 | Filtering a script line by line distributes over concatenation. |
| `CqlScript.JoinEnds` | src/main/java/com/prosoft/util/CassandraSchemaInitializer.java:53-61 | A joined statement starts with its first line and ends with its last line. |
| `CqlScript.PendingThenLast` | src/main/java/com/prosoft/util/CassandraSchemaInitializer.java:53-61 | The buffer holds each earlier line followed by one space. Appending the terminating line gives those lines joined with single spaces. |
| `CqlScript.FirstTerminator` | src/main/java/com/prosoft/util/CassandraSchemaInitializer.java:55 | Gives the index of the first kept line that ends in `;`, or the length when there is none. No earlier line ends in `;`. |
| `CqlScript.Statements` | src/main/java/com/prosoft/util/CassandraSchemaInitializer.java:53-61 | Groups the kept lines up to each line that ends in `;` and joins each group with single spaces. An unterminated tail forms no statement. It gives at most one statement per kept line. The count and shape are stated by `StatementCount` and `StatementShape`. |
| `CqlScript.Split` | src/main/java/com/prosoft/util/CassandraSchemaInitializer.java:47-64 | The reference statements of a script: `Statements` of its kept lines. It gives at most one statement per input line. Its properties are the `Split*`, `Statement*` and `*Tail*` lemmas below. |
| `CqlScript.ExecutedTrimIsIdentity` | src/main/java/com/prosoft/util/CassandraSchemaInitializer.java:53-61 | Trimming a completed buffer gives exactly the kept lines since the last terminator, joined with one space. The trim removes nothing. |
| `CqlScript.Scan` | src/main/java/com/prosoft/util/CassandraSchemaInitializer.java:44-64 | The reading loop as a function of the remaining lines and the buffer. It skips, appends, executes and clears as lines 48-61 do, and executes at most one statement per line. `ScanIsSplit` proves it equal to `Split` from an empty buffer. |
| `CqlScript.ScanPending` | src/main/java/com/prosoft/util/CassandraSchemaInitializer.java:44-64 | Reading lines with unterminated kept lines already in the buffer executes the reference statements of those lines followed by the new kept lines. |
| `CqlScript.ScanIsSplit` | src/main/java/com/prosoft/util/CassandraSchemaInitializer.java:44-64 | The line-by-line reading from an empty buffer executes exactly `Split(lines)`. |
| `CqlScript.SkippedLineIgnored` | src/main/java/com/prosoft/util/CassandraSchemaInitializer.java:48-51 | Inserting a blank or `--` line anywhere in a script leaves the statements unchanged. |
| `CqlScript.StatementCount` | src/main/java/com/prosoft/util/CassandraSchemaInitializer.java:53-59 | The number of statements equals the number of kept lines that end in `;`. |
| `CqlScript.StatementShape` | src/main/java/com/prosoft/util/CassandraSchemaInitializer.java:55-56 | Every statement is non-empty, ends in `;`, and has no blank at either end. |
| `CqlScript.UnterminatedLineDoesNotSplit` | src/main/java/com/prosoft/util/CassandraSchemaInitializer.java:55 | Inserting a line whose trimmed form does not end in `;` leaves the number of statements unchanged, even if the line holds a `;` elsewhere. |
| `CqlScript.SplitAfterTerminator` | src/main/java/com/prosoft/util/CassandraSchemaInitializer.java:59 | After a terminated line the buffer is empty. The rest of the script splits on its own, so the statements of `a + b` are those of `a` followed by those of `b`. |
| `CqlScript.UnterminatedTailDropped` | src/main/java/com/prosoft/util/CassandraSchemaInitializer.java:47-64 | Trailing lines with no terminated line among them add no statement. |
| `CqlScript.StatementsOfPair` | src/main/java/com/prosoft/util/CassandraSchemaInitializer.java:53-61 | An unterminated kept line followed by a terminated one forms one statement: the two lines joined with a single space. |
| `CqlScript.SplitTwoStatements` | src/main/java/com/prosoft/util/CassandraSchemaInitializer.java:47-62 | Take a skipped line, a blank line, a one-line statement and a two-line statement. The result is exactly the one-line statement, then the two lines joined. |
| `CqlScript.SplitExample` | src/main/java/com/prosoft/util/CassandraSchemaInitializer.java:47-62 | `["-- comment", "", "CREATE TABLE x (a int);", "CREATE TABLE", "y (b int);"]` gives exactly `["CREATE TABLE x (a int);", "CREATE TABLE y (b int);"]`. |
| `CqlScript.InnerSemicolonExample` | src/main/java/com/prosoft/util/CassandraSchemaInitializer.java:55-61 | `["SELECT 'a;b'", "FROM t;"]` gives the single statement `"SELECT 'a;b' FROM t;"`. |
| `SchemaInitializer.CassandraSchemaInitializer.ExecuteCqlScript` | src/main/java/com/prosoft/util/CassandraSchemaInitializer.java:39-65 | The loop appends to the log exactly `Split(lines)`, in input order. |
| `SchemaInitializer.CassandraSchemaInitializer.Run` | src/main/java/com/prosoft/util/CassandraSchemaInitializer.java:30-37 | The log grows by `Split(schema) + Split(data)`, so every schema statement precedes every data statement. |
| `SchemaInitializer.ScriptsKeepSeparateBuffers` | src/main/java/com/prosoft/util/CassandraSchemaInitializer.java:33-44 | Each script has its own buffer. An unterminated fragment ending the schema script is dropped and does not prefix the first data statement. Read as one script, the same lines would form one statement. |
| `Repository.UserRepository.FindAll` | src/main/java/com/prosoft/controller/UserController.java:21 | Assumed store contract: every row exactly once, in no set order. |
| `Repository.UserRepository.FindById` | src/main/java/com/prosoft/controller/UserController.java:26 | Assumed store contract: present exactly when a row is stored under the id, and then that row, whose id is the key. |
| `Repository.UserRepository.Save` | src/main/java/com/prosoft/controller/UserController.java:35 | Assumed store contract: upsert under the user's id, returning the user unchanged. |
| `Repository.UserRepository.DeleteById` | src/main/java/com/prosoft/controller/UserController.java:40 | Assumed store contract: the id is absent afterwards and nothing else changes. |
| `Domain.User` | src/main/java/com/prosoft/domain/User.java:10-22 | A row of `users`: the UUID primary key and the name, email and age columns, each optional because each may be null. |
| `Controller.UserResponse` | src/main/java/com/prosoft/controller/UserController.java:24-42 | The response entities that `getUserById` and `deleteUser` build: 200 with a user body, 404 with none, and 200 with none. `Status` gives the code. |
| `Controller.AssignId` | src/main/java/com/prosoft/controller/UserController.java:32-34 | The id is always present. An explicit id is kept unchanged, and a missing one becomes the generated id. Name, email and age pass through exactly. |
| `Controller.FoundOrNotFound` | src/main/java/com/prosoft/controller/UserController.java:27 | A present lookup gives 200 with that user. An absent one gives 404 with no body. |
| `Controller.UserController.GetAllUsers` | src/main/java/com/prosoft/controller/UserController.java:19-22 | Returns exactly the stored users, each once, in any order. The store is unchanged because the method modifies nothing. |
| `Controller.UserController.GetUserById` | src/main/java/com/prosoft/controller/UserController.java:24-28 | Returns 200 with the stored user exactly when the id is stored, otherwise 404 and no body. The store is unchanged. |
| `Controller.UserController.CreateUser` | src/main/java/com/prosoft/controller/UserController.java:30-36 | Saves and returns `AssignId(user, randomId)`. The store gains or replaces exactly that row under its id. |
| `Controller.UserController.DeleteUser` | src/main/java/com/prosoft/controller/UserController.java:38-42 | Returns 200 with no body whether or not the id existed. Afterwards the id is absent and the other rows are unchanged. |
| `Controller.CreateThenGet` | src/main/java/com/prosoft/controller/UserController.java:24-36 | A created user is found again under its id, equal in all four fields, with status 200. |
| `Controller.DeleteTwice` | src/main/java/com/prosoft/controller/UserController.java:24-42 | Deleting twice answers 200 both times, and a lookup afterwards answers 404. |
| `Controller.CreateTwoThenList` | src/main/java/com/prosoft/controller/UserController.java:19-36 | Two users created under different ids are both in the list that follows. |

## Left out

- Loading each script from the classpath, the `BufferedReader` and `IOException` are left out. A script is the sequence of lines `readLine` would return.
- Executing a statement through `CassandraTemplate` is a call into the store that cannot be seen here. The model appends the statement to a ghost log instead, so a failing statement (which aborts startup) is not modelled.
- Logging, the keyspace setting, and the Spring wiring (`@Component`, `@Autowired`, `CommandLineRunner`, routing, JSON binding) are left out.
- `UserRepository` (Spring Data, Cassandra's upsert) is not part of this model. Its contract is assumed as the map-backed `Repository.UserRepository`, and store failures are not modelled.
- `UUID.randomUUID()` is randomness. The generated id is a parameter of `CreateUser`, so only its use, not its uniqueness, is stated.
- `Controller.UserController.CreateUser`: `User` is a value here, so the Java handler's in-place `setId` on the request object (visible to anyone holding that object) is modelled as returning the updated value.
- The getters, setters, `hashCode` and `toString` of `User` and its convenience constructor, which draws a random id, are bean boilerplate and are left out.
- Concurrent requests and last-write-wins races at the store are left out.
