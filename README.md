# azure_cli.py in Dafny

`azure_cli.py` is a thin wrapper around the Azure command line tool `az`.
`bashprocess` runs a command line through the shell and returns its trimmed
output and exit status. `checl_az_cli_exitence` runs `command -v az` and
reports whether it succeeded. Each of the other functions builds one `az`
command line by string concatenation, runs it through `bashprocess` and
interprets the output. Two of them check an enumerated argument first: the
storage type, and the SQL client tool. `getSqldatabaseODBCconn` calls the
SQL connection-string function with the client `odbc`. It turns the result
into a dictionary with a list comprehension (split each segment on '=')
inside a dict comprehension (element 0 to element 1). It then picks `Server`
and `Database` from that dictionary for `pyodbc.connect`.

The model is pure: datatypes, functions and lemmas in five modules.

- `Outcomes` (`outcomes.dfy`): the Python exceptions that can leave the
  wrapper, and a `Result` type.
- `PyStr` (`pystr.dfy`): the Python string methods the wrapper relies on.
  These are `strip()` over the characters of `str.isspace()`, `strip(chars)`,
  `lstrip`, `rstrip` and `split(sep)`. Each comes with the reference meanings
  it is proved against: `StrippedOf` for strip, and `Join` for split.
- `ConnectionString` (`connstring.dfy`): the parse at `azure_cli.py:93`,
  step by step as Python evaluates it. It also defines a canonical
  serializer `k=v;…`, which the round-trip lemmas use.
- `Commands` (`commands.dfy`): the command lines, concatenated exactly as the
  source does. No argument is quoted or escaped.
- `AzureCli` (`azcli.dfy`): the facade functions.
  - The shell is a parameter `Runner` that maps a command line to stdout and
    an exit status.
  - `json.loads` is a parameter `JsonDecoder` that maps text to a JSON value
    or to nothing.
  - Every facade function returns a `Call`: the Python result or exception,
    together with the command lines it issued.

## Model

| member | source | states |
|---|---|---|
| ConnectionString.Normalize | azure_cli.py:93 | definition: `strip('"').rstrip(';')` of the text |
| ConnectionString.Segments | azure_cli.py:93 | definition: `strip('"').rstrip(';').split(';')` of the text |
| ConnectionString.Key | azure_cli.py:93 | definition: element 0 of `seg.split('=')`, the text before the first '=' |
| ConnectionString.Value | azure_cli.py:93 | definition: element 1 of `seg.split('=')`, the text between the first and second '=' |
| PyStr.Whitespace | azure_cli.py:20 | definition: the 29 characters for which `str.isspace()` holds |
| PyStr.LStrip | azure_cli.py:93 | `lstrip(chars)`: the result is a suffix of the input; every character removed is in the set; the result is empty or starts outside the set |
| PyStr.RStrip | azure_cli.py:93 | `rstrip(';')`: the result is a prefix of the input; every character removed is in the set; the result is empty or ends outside the set |
| PyStr.Strip | azure_cli.py:20 | `strip()`: the result is the stripping of the input as `StrippedOf` defines it (a slice, with only set characters cut on either side, and neither end in the set) |
| PyStr.StrippedUnique | azure_cli.py:20 | a text has exactly one stripping, so `Strip` is the only function meeting `StrippedOf` |
| PyStr.StripIdempotent | azure_cli.py:20 | stripping twice equals stripping once |
| PyStr.StripAround | azure_cli.py:20 | stripping set characters from around a body that neither starts nor ends with one gives exactly the body |
| PyStr.StripExample | azure_cli.py:20 | `"  value\n".strip()` is `"value"` |
| PyStr.Split | azure_cli.py:93 | `split(d)`: at least one piece; no piece contains d; joining the pieces with d gives the input back |
| PyStr.UpTo | azure_cli.py:93 | the text before the first d: a prefix without d, followed by d or by the end |
| PyStr.SplitJoinExactly | azure_cli.py:93 | for a non-empty list of words, splitting their join gives that list back if and only if no word contains the separator (the empty list joins to `""`, which splits to `[""]`) |
| PyStr.SplitJoin | azure_cli.py:93 | the inverse direction of split: a non-empty list of words joined by d splits back into the same words when none contains d |
| PyStr.SplitHead | azure_cli.py:93 | the first piece of a split is the text before the first separator |
| PyStr.SplitAtFirst | azure_cli.py:93 | splitting `a + d + b`, where a has no d, gives a followed by the pieces of b |
| ConnectionString.SplitProperty | azure_cli.py:93 | `(p[0], p[1])` of `seg.split('=')` succeeds if and only if the segment contains '='; otherwise it is IndexError |
| ConnectionString.SplitProperties | azure_cli.py:93 | the split of every segment on '=' together with the subscripts `prop[0]`, `prop[1]` of the dict comprehension: this succeeds if and only if every segment contains '='; it keeps the segments' order and length, and fails only with IndexError (raised by `prop[1]`) |
| ConnectionString.ToDict | azure_cli.py:93 | the dict comprehension: its keys are exactly the pairs' keys, and a key holds the value of the last pair that has it |
| ConnectionString.Parse | azure_cli.py:93 | the whole expression succeeds if and only if every segment of the stripped text contains '='; it fails only with IndexError |
| ConnectionString.ParseWithoutEquals | azure_cli.py:93 | a connection string without any '=' raises IndexError, whatever else it holds |
| ConnectionString.ParseEmpty | azure_cli.py:93 | the empty connection string raises IndexError |
| ConnectionString.SplitPropertyFields | azure_cli.py:93 | a segment's pair is the text before its first '=' and the text between its first and second '=' |
| ConnectionString.SplitPropertiesFields | azure_cli.py:93 | after a successful comprehension, pair k is the key and value of segment k, for every k |
| ConnectionString.ToDictOfEntries | azure_cli.py:93 | pairs that list exactly the keys of a dictionary, each with its value there, build that dictionary |
| ConnectionString.ParseKeys | azure_cli.py:93 | the keys of a parse are exactly the keys of its segments |
| ConnectionString.LastSegmentWins | azure_cli.py:93 | over any segment list, a key takes the value of its last segment |
| ConnectionString.ParseLastSegmentWins | azure_cli.py:93 | after a parse, a key holds the value of the last segment with that key |
| ConnectionString.ParseStopsAtSecondEquals | azure_cli.py:93 | a segment `k=v=w` gives key k and value v; whatever follows the second '=' is lost |
| ConnectionString.RoundTrip | azure_cli.py:93 | parsing the canonical text of a non-empty list of pairs free of ';' and '=', whose first key does not open with '"', gives the dictionary those pairs build |
| ConnectionString.DictionaryRoundTrip | azure_cli.py:93 | parsing the canonical text of a non-empty dictionary whose keys and values hold no ';' or '=' (and whose keys do not start with '"') gives that dictionary back |
| ConnectionString.ReparseCanonical | azure_cli.py:93 | re-serializing the pairs of a successful parse and parsing again gives the same result, built from the same pairs |
| ConnectionString.ParseExample | azure_cli.py:93 | `Server=tcp:foo.database.windows.net;Database=bar;Uid=x;Pwd=y;` parses to exactly the keys Server, Database, Uid and Pwd, with their values |
| ConnectionString.ParseIgnoresQuoteWrapping | azure_cli.py:93 | wrapping the text in any number of '"' on either side does not change the parse |
| ConnectionString.StripIgnoresQuoteWrapping | azure_cli.py:93 | `strip('"')` of the text wrapped in any number of '"' equals `strip('"')` of the text |
| ConnectionString.ParseIgnoresTrailingSemicolons | azure_cli.py:93 | appending any number of ';' does not change the parse, when the text does not end with '"' |
| ConnectionString.StripThenSemicolons | azure_cli.py:93 | the same invariance at the level of `strip('"').rstrip(';')` |
| ConnectionString.SemicolonAfterClosingQuote | azure_cli.py:93 | the proviso above is needed: in `"k=v";` the quote strip stops at the ';', so the value keeps that quote |
| Commands.AzLookupCommand | azure_cli.py:28 | definition: the probe command `command -v az` |
| Commands.LoginCommand | azure_cli.py:40 | definition: the concatenation at azure_cli.py:40 |
| Commands.CreateStorageAccountCommand | azure_cli.py:48-49 | definition: the concatenation at azure_cli.py:48-49 |
| Commands.StorageAccountUrlCommand | azure_cli.py:61 | definition: the concatenation at azure_cli.py:61 |
| Commands.StorageConnectionStringCommand | azure_cli.py:69 | definition: the concatenation at azure_cli.py:69 |
| Commands.SqlConnectionStringCommand | azure_cli.py:82 | definition: the concatenation at azure_cli.py:82 |
| Commands.StorageAccountKeysCommand | azure_cli.py:115 | definition: the concatenation at azure_cli.py:115 |
| Commands.StorageAccountUrlCommandText | azure_cli.py:61 | the URL query is `az storage account show --name <name> --resource-group <group> --query primaryEndpoints.<type>` |
| AzureCli.BashProcess | azure_cli.py:12-22 | the output is the stripping of stdout over the characters of `str.isspace`; the exit status passes through |
| AzureCli.BashProcessTrims | azure_cli.py:20 | stdout made of whitespace, a body and whitespace yields exactly the body |
| AzureCli.BashProcessExample | azure_cli.py:20 | stdout `"  value\n"` yields `"value"` |
| AzureCli.CheckAzCliExistence | azure_cli.py:24-35 | runs only `command -v az`; the result is false exactly when the exit status is non-zero |
| AzureCli.ExistenceIgnoresOutput | azure_cli.py:30-35 | the probe's answer depends on the exit status alone |
| AzureCli.Loads | azure_cli.py:43 | `json.loads` succeeds exactly when the decoder yields a value, and otherwise raises JSONDecodeError |
| AzureCli.FirstItem | azure_cli.py:43 | `x[0]`: the first item of a list or the first character of a string; IndexError on an empty one; KeyError(0) on a dictionary; TypeError on anything else |
| AzureCli.Field | azure_cli.py:72 | `x['connectionString']`: the dictionary entry; KeyError when it is missing; TypeError on anything that is not a dictionary |
| AzureCli.AzLogin | azure_cli.py:37-43 | issues only the login command; the result is element 0 of the decoded output, or the first error |
| AzureCli.LoginFirstSubscription | azure_cli.py:43 | when the output decodes to a list, the login returns its first item, or IndexError for an empty list |
| AzureCli.CreateStorageAccount | azure_cli.py:45-52 | issues only the create command; the result is the decoded output |
| AzureCli.StorageTypes | azure_cli.py:57 | definition: the tuple of accepted storage types |
| AzureCli.StorageTypeMessage | azure_cli.py:59 | definition: the AzureError text, with the tuple as Python's `str` formats it |
| AzureCli.GetStorageAccountUrl | azure_cli.py:54-64 | a storage type outside (blob, file, queue, table) raises AzureError with the source's message and issues nothing; a valid one issues exactly the URL query and returns its trimmed output |
| AzureCli.StorageAccountUrlIssued | azure_cli.py:57-62 | for a valid storage type, the one command issued is the URL query in one piece |
| AzureCli.FailedUrlQueryReturnsEmpty | azure_cli.py:62-64 | a process that exits with status 1 and prints nothing makes the URL query return `""`, not an error |
| AzureCli.GetStorageAccountConnectionString | azure_cli.py:66-72 | issues only the connection-string command; the result is the 'connectionString' entry of the decoded output, or the first error |
| AzureCli.ConnectionStringEntry | azure_cli.py:72 | output that is not JSON raises JSONDecodeError; an object with a 'connectionString' entry returns that entry |
| AzureCli.ClientTools | azure_cli.py:78 | definition: the list of accepted client tools |
| AzureCli.ClientToolMessage | azure_cli.py:80 | definition: the AzureError text, with the list as Python's `str` formats it |
| AzureCli.GetSqlDatabaseConnectionString | azure_cli.py:74-85 | a client outside ['sqlcmd', 'jdbc', 'odbc'] raises AzureError with the source's message and issues nothing; a valid one issues exactly the connection-string query and returns its trimmed output |
| AzureCli.ValidationBeforeRunning | azure_cli.py:57-83 | covering the storage-type check at lines 57-62 and the client check at lines 78-83: a rejected storage type or client gives the same call whatever the runner; an accepted one issues exactly one command |
| AzureCli.OdbcArguments | azure_cli.py:106 | the lookups succeed exactly when Server and Database are both present, and then give their values; a missing Server, and otherwise a missing Database, raises pyodbc.Error around that KeyError |
| AzureCli.GetSqlDatabaseOdbcConn | azure_cli.py:87-106 | always issues exactly the `odbc` connection-string query; the result is the parse of its trimmed output followed by the Server and Database lookups |
| AzureCli.OdbcParseFailure | azure_cli.py:93 | a segment without '=' makes the ODBC call raise a bare IndexError, which is not wrapped in pyodbc.Error |
| AzureCli.ParsePrinted | azure_cli.py:93 | the quotes and line break around the printed connection string do not reach the parse |
| AzureCli.OdbcFromPrintedDictionary | azure_cli.py:90-106 | when the CLI prints the canonical text of a non-empty dictionary whose keys and values hold no ';' or '=' and whose keys do not open with '"', the ODBC call uses that dictionary's Server and Database, or raises pyodbc.Error around the KeyError for the first one missing |
| AzureCli.OdbcExample | azure_cli.py:90-106 | the printed string `"Server=tcp:foo.database.windows.net;Database=bar;Uid=x;Pwd=y;"` gives server tcp:foo.database.windows.net and database bar |
| AzureCli.OutputFromStdout | azure_cli.py:20 | the trimmed output depends on stdout alone |
| AzureCli.ExitStatusIgnored | azure_cli.py:54-85 | the text-returning facades give the same results for runners that print the same text, whatever exit status the runners report |
| AzureCli.OdbcIgnoresExitStatus | azure_cli.py:87-106 | the same for the ODBC facade |
| AzureCli.ExitStatusIgnoredByDecoding | azure_cli.py:37-72 | the same for the facades that decode JSON |
| AzureCli.GetStorageAccountKeys | azure_cli.py:112-118 | issues only the keys command and returns its trimmed output |

## Left out

- Process execution (`subprocess.Popen`, `wait`, `communicate`, azure_cli.py:15-17). The runner is a parameter: a deterministic map from a command line to stdout and an exit status. Exceptions raised by Popen itself are not modelled.
- Blocking. The runner always returns. The source can block forever: there is no time-out, and `process.wait()` runs before `communicate()` with `stdout=PIPE`, so a child that fills the pipe stalls.
- Standard error. The source does not capture it: the child inherits the caller's stderr. The runner has no stderr.
- `bytes.decode()` at azure_cli.py:20. The runner yields text that is already decoded, so decoding errors are not modelled.
- `json.loads` (azure_cli.py:43, 52, 72). It is an injected partial function, so its grammar and the number types are not modelled.
- `pyodbc.connect` and the credential text it receives (azure_cli.py:97-105). The model stops at the two values formatted into that text. A failure of the connection itself, which the source also wraps in pyodbc.Error, is not modelled.
- `print` in the existence check (azure_cli.py:31, 34). It is console output only.
- The shell's parsing of the command lines. Arguments are pasted in without quoting, as in the source. No lemma says which words the shell sees.
- Exception class identity. AzureError, pyodbc.Error, KeyError, IndexError, TypeError and JSONDecodeError are constructors of one `Error` type. `AzureError` keeps its message text.
- The messages at azure_cli.py:59 and azure_cli.py:80 are stored as literal constants: the text Python's `str.format` produces from the tuple and the list. That formatting step is not modelled.
- Behaviour of `azure_cli.py` that a reader may not expect:
  - Keys and values are not split on the first '='. `split('=')` cuts at every '=', and the value stops at the second one.
  - A non-zero exit status of a facade command raises nothing. The output is used as it is (see `ExitStatusIgnored`).
  - A missing Server or Database raises pyodbc.Error wrapping the KeyError. A segment without '=' raises a bare IndexError.
  - An empty connection string, or any text without '=' (one made only of '"' and ';', say), raises IndexError (see `ParseWithoutEquals`). This is why every round trip needs a non-empty list of pairs.
  - Trailing ';' are removed only after the quotes. So a ';' after a closing quote keeps that quote (see `SemicolonAfterClosingQuote`).
