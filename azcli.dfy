/** The functions of azure_cli.py that wrap the az command line: each builds
    one command line, hands it to the shell through `bashprocess`, and
    interprets the trimmed output.

    The shell is a parameter: a `Runner` maps a command line to what the
    process wrote on stdout and its exit status. `json.loads` is a parameter
    too: a `JsonDecoder` maps text to a JSON value, or to nothing when the
    text is not JSON. Every facade function returns a `Call`: the Python
    result or exception, and the command lines it issued, in order. */
module AzureCli {
  import opened Outcomes
  import opened PyStr
  import opened ConnectionString
  import opened Commands

  /** What the process leaves behind: its stdout, already decoded to text,
      and its exit status. */
  datatype ProcessOutput = ProcessOutput(stdout: string, returncode: int)

  type Runner = string -> ProcessOutput

  /** The dictionary `bashprocess` returns. */
  datatype Execution = Execution(output: string, returncode: int)

  /** The outcome of one facade call and the commands it ran. */
  datatype Call<T> = Call(result: Result<T>, issued: seq<string>)

  /** The JSON values `json.loads` produces. Numbers keep their text, since
      nothing here computes with them. */
  datatype Json =
    | JNull
    | JBool(b: bool)
    | JNumber(text: string)
    | JString(str: string)
    | JArray(items: seq<Json>)
    | JObject(fields: map<string, Json>)

  type JsonDecoder = string -> Option<Json>

  /** `bashprocess(command)`, azure_cli.py:12-22: the output is the process's
      stdout with surrounding whitespace removed, the exit status passes
      through untouched. */
  function BashProcess(run: Runner, command: string): (e: Execution)
    ensures StrippedOf(e.output, run(command).stdout, Whitespace)
    ensures e.returncode == run(command).returncode
  {
    Execution(Strip(run(command).stdout, Whitespace), run(command).returncode)
  }

  /** `checl_az_cli_exitence()`, azure_cli.py:24-35. */
  function CheckAzCliExistence(run: Runner): (c: Call<bool>)
    ensures c.issued == [AzLookupCommand]
    ensures c.result.Ok?
    ensures !c.result.value <==> run(AzLookupCommand).returncode != 0
  {
    var processdict := BashProcess(run, AzLookupCommand);
    Call(Ok(processdict.returncode == 0), [AzLookupCommand])
  }

  /** `json.loads(text)`: JSONDecodeError when the text is not JSON. */
  function Loads(decode: JsonDecoder, text: string): (r: Result<Json>)
    ensures r.Ok? <==> decode(text).Some?
    ensures r.Ok? ==> r.value == decode(text).value
    ensures r.Err? ==> r.error == JsonDecodeError
  {
    match decode(text)
    case None => Err(JsonDecodeError)
    case Some(j) => Ok(j)
  }

  /** Python's `j[0]` on a decoded value: the first item of a list or the
      first character of a string; IndexError when that is empty; KeyError
      on a dictionary, whose keys are all strings; TypeError otherwise. */
  function FirstItem(j: Json): (r: Result<Json>)
    ensures r.Ok? <==> (j.JArray? && |j.items| > 0) || (j.JString? && |j.str| > 0)
    ensures j.JArray? && |j.items| > 0 ==> r.value == j.items[0]
    ensures j.JString? && |j.str| > 0 ==> r.value == JString([j.str[0]])
    ensures r.Err? ==> r.error == (if j.JArray? || j.JString? then IndexError
                                   else if j.JObject? then KeyError(IntKey(0))
                                   else TypeError)
  {
    match j
    case JArray(items) => if |items| == 0 then Err(IndexError) else Ok(items[0])
    case JString(str) => if |str| == 0 then Err(IndexError) else Ok(JString([str[0]]))
    case JObject(_) => Err(KeyError(IntKey(0)))
    case _ => Err(TypeError)
  }

  /** Python's `j[name]` on a decoded value: the entry of a dictionary,
      KeyError when it has none, TypeError on anything that is not a
      dictionary (a list or a string cannot be subscripted by a string). */
  function Field(j: Json, name: string): (r: Result<Json>)
    ensures r.Ok? <==> j.JObject? && name in j.fields
    ensures r.Ok? ==> r.value == j.fields[name]
    ensures r.Err? ==> r.error == (if j.JObject? then KeyError(StrKey(name)) else TypeError)
  {
    match j
    case JObject(fields) => if name in fields then Ok(fields[name]) else Err(KeyError(StrKey(name)))
    case _ => Err(TypeError)
  }

  /** `azlogin(appid, tenantid, password)`, azure_cli.py:37-43: the first
      element of the decoded output. */
  function AzLogin(run: Runner, decode: JsonDecoder, appid: string, tenantid: string, password: string): (c: Call<Json>)
    ensures c.issued == [LoginCommand(appid, tenantid, password)]
    ensures var out := BashProcess(run, LoginCommand(appid, tenantid, password)).output;
      c.result == match Loads(decode, out) { case Err(e) => Err(e) case Ok(j) => FirstItem(j) }
  {
    var azurelogincmd := LoginCommand(appid, tenantid, password);
    var processdict := BashProcess(run, azurelogincmd);
    var result := match Loads(decode, processdict.output)
      case Err(e) => Err(e)
      case Ok(j) => FirstItem(j);
    Call(result, [azurelogincmd])
  }

  /** `createstorageaccount(...)`, azure_cli.py:45-52: the decoded output. */
  function CreateStorageAccount(run: Runner, decode: JsonDecoder, storagekind: string, resourcegroup: string,
                                location: string, storageaccountname: string): (c: Call<Json>)
    ensures c.issued == [CreateStorageAccountCommand(storagekind, resourcegroup, location, storageaccountname)]
    ensures c.result == Loads(decode, BashProcess(run, c.issued[0]).output)
  {
    var storageacctcmd := CreateStorageAccountCommand(storagekind, resourcegroup, location, storageaccountname);
    var processdict := BashProcess(run, storageacctcmd);
    Call(Loads(decode, processdict.output), [storageacctcmd])
  }

  /** The tuple `storagetypeset` of azure_cli.py:57. */
  const StorageTypes: seq<string> := ["blob", "file", "queue", "table"]

  /** The text of the AzureError raised at azure_cli.py:59: the message with
      the tuple formatted by Python's `str`. */
  const StorageTypeMessage: string :=
    "Storage Type passed is not correct. It should be one of ('blob', 'file', 'queue', 'table')"

  /** `getstorageaccounturl(...)`, azure_cli.py:54-64. An unknown storage
      type raises before any command is built; a known one runs exactly the
      URL query and returns its trimmed output, whatever the exit status. */
  function GetStorageAccountUrl(run: Runner, storageaccountname: string, resourcegroup: string, storagetype: string): (c: Call<string>)
    ensures storagetype !in StorageTypes ==> c.result == Err(AzureError(StorageTypeMessage)) && c.issued == []
    ensures storagetype in StorageTypes ==>
      && c.issued == [StorageAccountUrlCommand(storageaccountname, resourcegroup, storagetype)]
      && c.result.Ok?
      && StrippedOf(c.result.value, run(c.issued[0]).stdout, Whitespace)
  {
    if storagetype !in StorageTypes then
      Call(Err(AzureError(StorageTypeMessage)), [])
    else
      var acturlcmd := StorageAccountUrlCommand(storageaccountname, resourcegroup, storagetype);
      var processdict := BashProcess(run, acturlcmd);
      Call(Ok(processdict.output), [acturlcmd])
  }

  /** `getstorageaccountconnectionstring(...)`, azure_cli.py:66-72: the
      'connectionString' entry of the decoded output. */
  function GetStorageAccountConnectionString(run: Runner, decode: JsonDecoder, storageaccountname: string,
                                             resourcegroup: string): (c: Call<Json>)
    ensures c.issued == [StorageConnectionStringCommand(storageaccountname, resourcegroup)]
    ensures var out := BashProcess(run, c.issued[0]).output;
      c.result == match Loads(decode, out) { case Err(e) => Err(e) case Ok(j) => Field(j, "connectionString") }
  {
    var constrcmd := StorageConnectionStringCommand(storageaccountname, resourcegroup);
    var processdict := BashProcess(run, constrcmd);
    var result := match Loads(decode, processdict.output)
      case Err(e) => Err(e)
      case Ok(j) => Field(j, "connectionString");
    Call(result, [constrcmd])
  }

  /** The list `clienttoolsallowed` of azure_cli.py:78. */
  const ClientTools: seq<string> := ["sqlcmd", "jdbc", "odbc"]

  /** The text of the AzureError raised at azure_cli.py:80: the message with
      the list formatted by Python's `str`. */
  const ClientToolMessage: string :=
    "Client provided is incorrect. Please provide one of ['sqlcmd', 'jdbc', 'odbc']"

  /** `getsqldatabaseconnectionstring(...)`, azure_cli.py:74-85. An unknown
      client raises before any command is built; a known one runs exactly
      the connection-string query and returns its trimmed output. */
  function GetSqlDatabaseConnectionString(run: Runner, databasename: string, client: string, servername: string): (c: Call<string>)
    ensures client !in ClientTools ==> c.result == Err(AzureError(ClientToolMessage)) && c.issued == []
    ensures client in ClientTools ==>
      && c.issued == [SqlConnectionStringCommand(databasename, client, servername)]
      && c.result.Ok?
      && StrippedOf(c.result.value, run(c.issued[0]).stdout, Whitespace)
  {
    if client !in ClientTools then
      Call(Err(AzureError(ClientToolMessage)), [])
    else
      var connstr := SqlConnectionStringCommand(databasename, client, servername);
      var processdict := BashProcess(run, connstr);
      Call(Ok(processdict.output), [connstr])
  }

  /** The two values `getSqldatabaseODBCconn` formats into the connection
      string it passes to `pyodbc.connect`. */
  datatype OdbcTarget = OdbcTarget(server: string, database: string)

  /** `connectionproperties['Server']` and `['Database']`, azure_cli.py:106:
      evaluated inside the try block, so a missing key leaves as a
      pyodbc.Error around the KeyError; 'Server' is looked up first. */
  function OdbcArguments(properties: Properties): (r: Result<OdbcTarget>)
    ensures r.Ok? <==> "Server" in properties && "Database" in properties
    ensures r.Ok? ==> r.value == OdbcTarget(properties["Server"], properties["Database"])
    ensures "Server" !in properties ==> r == Err(OdbcError(KeyError(StrKey("Server"))))
    ensures "Server" in properties && "Database" !in properties ==> r == Err(OdbcError(KeyError(StrKey("Database"))))
  {
    if "Server" !in properties then Err(OdbcError(KeyError(StrKey("Server"))))
    else if "Database" !in properties then Err(OdbcError(KeyError(StrKey("Database"))))
    else Ok(OdbcTarget(properties["Server"], properties["Database"]))
  }

  /** `getSqldatabaseODBCconn(databasename, servername)`, azure_cli.py:87-106,
      up to the arguments of `pyodbc.connect`: ask for the ODBC connection
      string, parse it (an IndexError there is outside the try block and
      leaves as it is), and pick Server and Database from it. */
  function GetSqlDatabaseOdbcConn(run: Runner, databasename: string, servername: string): (c: Call<OdbcTarget>)
    ensures c.issued == [SqlConnectionStringCommand(databasename, "odbc", servername)]
    ensures var out := BashProcess(run, c.issued[0]).output;
      c.result == match Parse(out) { case Err(e) => Err(e) case Ok(m) => OdbcArguments(m) }
  {
    var conn := GetSqlDatabaseConnectionString(run, databasename, "odbc", servername);
    match conn.result
    case Err(e) => Call(Err(e), conn.issued)
    case Ok(odbcconnstring) =>
      var result := match Parse(odbcconnstring)
        case Err(e) => Err(e)
        case Ok(connectionproperties) => OdbcArguments(connectionproperties);
      Call(result, conn.issued)
  }

  /** `getstorageaccountkeys(...)`, azure_cli.py:112-118: the trimmed output. */
  function GetStorageAccountKeys(run: Runner, storageaccountname: string, resourcegroup: string): (c: Call<string>)
    ensures c.issued == [StorageAccountKeysCommand(storageaccountname, resourcegroup)]
    ensures c.result.Ok? && StrippedOf(c.result.value, run(c.issued[0]).stdout, Whitespace)
  {
    var constrcmd := StorageAccountKeysCommand(storageaccountname, resourcegroup);
    var processdict := BashProcess(run, constrcmd);
    Call(Ok(processdict.output), [constrcmd])
  }

  /** Trimming removes exactly surrounding whitespace: output with a body
      that neither starts nor ends with whitespace comes back as that body. */
  lemma BashProcessTrims(run: Runner, command: string, pre: string, body: string, post: string)
    requires run(command).stdout == pre + body + post
    requires forall k :: 0 <= k < |pre| ==> pre[k] in Whitespace
    requires forall k :: 0 <= k < |post| ==> post[k] in Whitespace
    requires body == [] || (body[0] !in Whitespace && body[|body| - 1] !in Whitespace)
    ensures BashProcess(run, command).output == body
  {
    StripAround(pre, body, post, Whitespace);
  }

  /** The runner's output `"  value\n"` is returned as `"value"`. */
  lemma BashProcessExample(run: Runner, command: string)
    requires run(command).stdout == "  value\n"
    ensures BashProcess(run, command).output == "value"
  {
    StripExample();
  }

  /** The trimmed output depends on stdout alone. */
  lemma OutputFromStdout(run1: Runner, run2: Runner, command: string)
    requires run1(command).stdout == run2(command).stdout
    ensures BashProcess(run1, command).output == BashProcess(run2, command).output
  {
    StrippedUnique(BashProcess(run1, command).output, BashProcess(run2, command).output,
                   run1(command).stdout, Whitespace);
  }

  /** Nothing but stdout decides the result of a facade that returns text:
      two runners that print the same give the same results, whatever exit
      status they report. Only the existence probe looks at the exit status. */
  lemma ExitStatusIgnored(run1: Runner, run2: Runner, a: string, b: string, c: string)
    requires forall command :: run1(command).stdout == run2(command).stdout
    ensures GetStorageAccountUrl(run1, a, b, c) == GetStorageAccountUrl(run2, a, b, c)
    ensures GetSqlDatabaseConnectionString(run1, a, b, c) == GetSqlDatabaseConnectionString(run2, a, b, c)
    ensures GetStorageAccountKeys(run1, a, b) == GetStorageAccountKeys(run2, a, b)
  {
    OutputFromStdout(run1, run2, StorageAccountUrlCommand(a, b, c));
    OutputFromStdout(run1, run2, SqlConnectionStringCommand(a, b, c));
    OutputFromStdout(run1, run2, StorageAccountKeysCommand(a, b));
  }

  /** The same for the ODBC facade: the parse sees only the trimmed stdout. */
  lemma OdbcIgnoresExitStatus(run1: Runner, run2: Runner, databasename: string, servername: string)
    requires forall command :: run1(command).stdout == run2(command).stdout
    ensures GetSqlDatabaseOdbcConn(run1, databasename, servername) == GetSqlDatabaseOdbcConn(run2, databasename, servername)
  {
    OutputFromStdout(run1, run2, SqlConnectionStringCommand(databasename, "odbc", servername));
  }

  /** The same for the facades that decode the output as JSON. */
  lemma ExitStatusIgnoredByDecoding(run1: Runner, run2: Runner, decode: JsonDecoder, a: string, b: string, c: string, d: string)
    requires forall command :: run1(command).stdout == run2(command).stdout
    ensures AzLogin(run1, decode, a, b, c) == AzLogin(run2, decode, a, b, c)
    ensures CreateStorageAccount(run1, decode, a, b, c, d) == CreateStorageAccount(run2, decode, a, b, c, d)
    ensures GetStorageAccountConnectionString(run1, decode, a, b) == GetStorageAccountConnectionString(run2, decode, a, b)
  {
    OutputFromStdout(run1, run2, LoginCommand(a, b, c));
    OutputFromStdout(run1, run2, CreateStorageAccountCommand(a, b, c, d));
    OutputFromStdout(run1, run2, StorageConnectionStringCommand(a, b));
  }

  /** A failing process with nothing on stdout is not an error: the URL query
      returns the empty text. */
  lemma FailedUrlQueryReturnsEmpty(run: Runner, storageaccountname: string, resourcegroup: string, storagetype: string)
    requires storagetype in StorageTypes
    requires run(StorageAccountUrlCommand(storageaccountname, resourcegroup, storagetype)) == ProcessOutput("", 1)
    ensures GetStorageAccountUrl(run, storageaccountname, resourcegroup, storagetype) == Call(Ok(""), [StorageAccountUrlCommand(storageaccountname, resourcegroup, storagetype)])
  {
    BashProcessTrims(run, StorageAccountUrlCommand(storageaccountname, resourcegroup, storagetype), "", "", "");
  }

  /** The existence probe reads only the exit status. */
  lemma ExistenceIgnoresOutput(run1: Runner, run2: Runner)
    requires run1(AzLookupCommand).returncode == run2(AzLookupCommand).returncode
    ensures CheckAzCliExistence(run1) == CheckAzCliExistence(run2)
  {
  }

  /** The storage types and clients are validated before anything runs: a
      rejected call is the same whatever the runner, and an accepted one
      issues exactly one command. */
  lemma ValidationBeforeRunning(run1: Runner, run2: Runner, a: string, b: string, c: string)
    ensures c !in StorageTypes ==> GetStorageAccountUrl(run1, a, b, c) == GetStorageAccountUrl(run2, a, b, c)
    ensures b !in ClientTools ==> GetSqlDatabaseConnectionString(run1, a, b, c) == GetSqlDatabaseConnectionString(run2, a, b, c)
    ensures |GetStorageAccountUrl(run1, a, b, c).issued| == (if c in StorageTypes then 1 else 0)
    ensures |GetSqlDatabaseConnectionString(run1, a, b, c).issued| == (if b in ClientTools then 1 else 0)
  {
  }

  /** The query the URL facade runs, in one piece. */
  lemma StorageAccountUrlIssued(run: Runner, storageaccountname: string, resourcegroup: string, storagetype: string)
    requires storagetype in StorageTypes
    ensures GetStorageAccountUrl(run, storageaccountname, resourcegroup, storagetype).issued
         == ["az storage account show --name " + storageaccountname + " --resource-group " + resourcegroup
             + " --query primaryEndpoints." + storagetype]
  {
    StorageAccountUrlCommandText(storageaccountname, resourcegroup, storagetype);
  }

  /** A connection string with a segment that has no '=' fails the parse, and
      that IndexError is not wrapped in a pyodbc.Error. */
  lemma OdbcParseFailure(run: Runner, databasename: string, servername: string, i: nat)
    requires var segs := Segments(BashProcess(run, SqlConnectionStringCommand(databasename, "odbc", servername)).output);
      i < |segs| && '=' !in segs[i]
    ensures GetSqlDatabaseOdbcConn(run, databasename, servername).result == Err(IndexError)
  {
  }

  /** An assumed shape of what the CLI prints for a connection string: the
      text between '"' characters, followed by a line break. This is how a
      JSON string prints when the text holds neither '"' nor '\\'. */
  function Printed(text: string): string
  {
    "\"" + text + "\"\n"
  }

  /** The CLI's quotes and line break do not reach the parse. */
  lemma ParsePrinted(run: Runner, command: string, text: string)
    requires run(command).stdout == Printed(text)
    ensures Parse(BashProcess(run, command).output) == Parse(text)
  {
    var q := Repeat('"', 1);
    assert q == "\"";
    assert Printed(text) == q + text + q + "\n";
    BashProcessTrims(run, command, "", q + text + q, "\n");
    ParseIgnoresQuoteWrapping(text, 1, 1);
  }

  /** End to end: when the CLI prints the canonical text of a dictionary, the
      ODBC facade uses that dictionary's Server and Database, or fails with
      a pyodbc.Error around the KeyError for the first of them it lacks. */
  lemma OdbcFromPrintedDictionary(run: Runner, databasename: string, servername: string, m: Properties)
    requires |m| >= 1
    requires forall key :: key in m ==> ';' !in key && '=' !in key && ';' !in m[key] && '=' !in m[key]
    requires forall key :: key in m && |key| > 0 ==> key[0] != '"'
    requires run(SqlConnectionStringCommand(databasename, "odbc", servername)).stdout == Printed(Serialize(EntriesOf(m)))
    ensures GetSqlDatabaseOdbcConn(run, databasename, servername).result == OdbcArguments(m)
  {
    ParsePrinted(run, SqlConnectionStringCommand(databasename, "odbc", servername), Serialize(EntriesOf(m)));
    DictionaryRoundTrip(m);
  }

  /** The sample output of the connection-string query gives server
      tcp:foo.database.windows.net and database bar. */
  lemma OdbcExample(run: Runner, databasename: string, servername: string)
    requires run(SqlConnectionStringCommand(databasename, "odbc", servername)).stdout
          == Printed("Server=tcp:foo.database.windows.net;Database=bar;Uid=x;Pwd=y;")
    ensures GetSqlDatabaseOdbcConn(run, databasename, servername).result
         == Ok(OdbcTarget("tcp:foo.database.windows.net", "bar"))
  {
    ParsePrinted(run, SqlConnectionStringCommand(databasename, "odbc", servername),
                 "Server=tcp:foo.database.windows.net;Database=bar;Uid=x;Pwd=y;");
    ParseExample();
    OdbcArgumentsExample();
  }

  lemma OdbcArgumentsExample()
    ensures OdbcArguments(map["Server" := "tcp:foo.database.windows.net", "Database" := "bar", "Uid" := "x", "Pwd" := "y"])
         == Ok(OdbcTarget("tcp:foo.database.windows.net", "bar"))
  {
    var m := map["Server" := "tcp:foo.database.windows.net", "Database" := "bar", "Uid" := "x", "Pwd" := "y"];
    assert "Server" in m && m["Server"] == "tcp:foo.database.windows.net";
    assert "Database" in m && m["Database"] == "bar";
  }

  /** The login returns the first subscription of the list the CLI prints,
      and fails on an empty list. */
  lemma LoginFirstSubscription(run: Runner, decode: JsonDecoder, appid: string, tenantid: string, password: string)
    requires decode(BashProcess(run, LoginCommand(appid, tenantid, password)).output).Some?
    requires decode(BashProcess(run, LoginCommand(appid, tenantid, password)).output).value.JArray?
    ensures var items := decode(BashProcess(run, LoginCommand(appid, tenantid, password)).output).value.items;
      AzLogin(run, decode, appid, tenantid, password).result == if items == [] then Err(IndexError) else Ok(items[0])
  {
  }

  /** The storage connection string is the 'connectionString' entry of the
      object the CLI prints; text that is not JSON fails to decode. */
  lemma ConnectionStringEntry(run: Runner, decode: JsonDecoder, storageaccountname: string, resourcegroup: string)
    ensures var out := BashProcess(run, StorageConnectionStringCommand(storageaccountname, resourcegroup)).output;
      var r := GetStorageAccountConnectionString(run, decode, storageaccountname, resourcegroup).result;
      && (decode(out).None? ==> r == Err(JsonDecodeError))
      && (decode(out).Some? && decode(out).value.JObject? && "connectionString" in decode(out).value.fields ==>
            r == Ok(decode(out).value.fields["connectionString"]))
  {
  }
}
