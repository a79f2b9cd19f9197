# Fifa database formatter, modelled in Dafny

This project models `Fifa::Formatter::Database` from the `fifa` command-line
tool. The formatter turns a *planet* into connection strings for Oracle
client tools. A planet is a connection descriptor with an `id` and optional
string attributes (`host`, `port`, `sid`, `user`, `password`, `pqdb`, ...).

- `jdbc` gives `jdbc:oracle:thin:[user/password]@host:port:sid`.
- `tns` gives the TNS connect descriptor
  `(DESCRIPTION=(ADDRESS_LIST=(ADDRESS=(PROTOCOL=TCP)(HOST=…)(PORT=…)))(CONNECT_DATA=(SID=…)))`.
- `sqlplus` gives `user[/password]@"@<tns>"`.
- `pqdb` (also reachable as `ski_value`) gives `<path>:<connection value>`.
  The path comes from the `pqdb` attribute, and the connection value comes
  from the server planet that the attribute names.

The model has four modules:

- `Wrappers` (`wrappers.dfy`): `Option`, standing for Ruby's `nil` or a present value.
- `RubySplit` (`ruby_split.dfy`): Ruby's `String#split` with a one-character
  separator, and `Array#first` / `Array#last`. `Fields` keeps every field.
  `Split` then drops the empty fields at the end, as Ruby does. So `""` and
  `"@@"` split to `[]`, and `"@b"` splits to `["", "b"]`. The lemmas give
  `first` and `last` of a split in terms of three plain reference functions:
  the text before the first separator (`TakeUntil`), the text after the last
  one (`AfterLast`), and the string with its trailing separators removed
  (`TrimTrailing`). Two lemmas prove the `join` / `split` round trip, one in
  each direction.
- `DatabaseFormatter` (`database_formatter.dfy`): the planet, the four formats,
  `find_server`, and lemmas about them. Three pieces of Ruby behaviour are
  written out:
  - an absent attribute reads as `nil`, and `"#{nil}"` is `""`;
  - `if planet['password']` is true for every present value, including `""`;
  - `&.first` and `&.last` yield `nil` when the split is empty.
- `ConnectionSyntax` (`connection_syntax.dfy`): readers for the JDBC, TNS and
  SqlPlus strings. The round-trip lemmas prove that each reader gives back
  exactly the attributes that were written, as long as the attributes do not
  contain the separators the format relies on. A further lemma shows that the
  JDBC condition that the password has no `@` cannot be dropped.

The collaborators outside `database.rb` are parameters, held in the
`Services` datatype:

- `Fifa::Planet.find`;
- `server.connection(:ssh)`;
- `Logger.instance.errors(id)`, as answered at the moment `pqdb` asks;
- the `Fifa::Planet::UNKNOWN` constant.

The calls into the logging layer (`log_if_missing(planet, names…)` and
`log(id, errors)`) are returned as data, in call order, next to the text.
Each function therefore says which attribute names it asks the logger to
check, and in which order. The formatted text never depends on those calls.
Every operation is a function, so calling it twice on the same planet and
services gives the same text and the same calls.

`find_server` looks up the text before the first `@` of `pqdb`. When the
value has no `@`, that text is the whole value. So `"justpath"` looks up a
planet named `justpath`, and `"@b"` looks up the empty name. The placeholder
planet (own id, type UNKNOWN) is used only when `pqdb` is absent, empty or
made only of `@`. A reading in which a value without `@` names no server does
not match the code; the model follows the code. The code also takes the
server from the first field and the path from the last one, so `"a@b@c"`
names server `a` and path `c`.

## Model

| member | source | states |
|---|---|---|
| `RubySplit.Fields` | mrblib/fifa/formatter/database.rb:103 | splitting at every `@` gives at least one field; no field contains `@`; joining the fields with `@` gives back the string |
| `RubySplit.FieldsOfJoin` | mrblib/fifa/formatter/database.rb:103 | the fields are the unique `@`-free decomposition: splitting a join of `@`-free fields gives those fields back |
| `RubySplit.Split` | mrblib/fifa/formatter/database.rb:90 | `split('@')` yields `@`-free fields and never ends with an empty field |
| `RubySplit.First` | mrblib/fifa/formatter/database.rb:103 | `Array#first` is `nil` exactly on an empty array, else the first element |
| `RubySplit.Last` | mrblib/fifa/formatter/database.rb:90 | `Array#last` is `nil` exactly on an empty array, else the last element |
| `RubySplit.SplitEmptyIff` | mrblib/fifa/formatter/database.rb:103-107 | `split('@')` is empty exactly when the value is empty or made only of `@` |
| `RubySplit.SplitFirst` | mrblib/fifa/formatter/database.rb:103 | `split('@').first` is `nil` for an empty or all-`@` value, else the text before the first `@` (the whole value when there is none) |
| `RubySplit.SplitLast` | mrblib/fifa/formatter/database.rb:90 | `split('@').last` is `nil` for an empty or all-`@` value, else the text after the last `@` once trailing `@` are trimmed |
| `RubySplit.SplitJoin` | mrblib/fifa/formatter/database.rb:90 | splitting a join of `@`-free fields whose last field is non-empty gives those fields back |
| `RubySplit.JoinSplit` | mrblib/fifa/formatter/database.rb:90 | joining the split fields rebuilds the value without its trailing `@` |
| `RubySplit.SplitNoSep` | mrblib/fifa/formatter/database.rb:103 | a non-empty value without `@` splits into itself alone |
| `DatabaseFormatter.Attr` | mrblib/fifa/formatter/database.rb:37 | `planet[name]` is present exactly when the planet has that attribute, and then it is the attribute's value |
| `DatabaseFormatter.Interp` | mrblib/fifa/formatter/database.rb:37 | interpolating `nil` gives the empty string; a present value is inserted unchanged |
| `DatabaseFormatter.Jdbc` | mrblib/fifa/formatter/database.rb:33-44 | asks the logger to check `host`, `port`, `sid`; the URL starts with `jdbc:oracle:thin:` and ends with `@host:port:sid` |
| `DatabaseFormatter.Tns` | mrblib/fifa/formatter/database.rb:70-73 | asks the logger to check `host`, `port`, `sid`; the descriptor starts with the fixed head, the host and `)(PORT=`, and ends with `)))(CONNECT_DATA=(SID=`, the sid and `)))` (the exact text is `ConnectionSyntax.TnsTextShape`) |
| `DatabaseFormatter.Sqlplus` | mrblib/fifa/formatter/database.rb:52-62 | asks the logger to check `user`, then (through `tns`) `host`, `port`, `sid`; starts with the user and ends with `@"@` + the TNS descriptor + `"` |
| `DatabaseFormatter.Placeholder` | mrblib/fifa/formatter/database.rb:107 | the placeholder planet has the given id and type UNKNOWN |
| `DatabaseFormatter.Pqdb` | mrblib/fifa/formatter/database.rb:81-91 | asks the logger to check `pqdb`; logs the server's errors under the planet's id exactly when there are any; the text ends with `:` and the server's connection value |
| `DatabaseFormatter.SkiValue` | mrblib/fifa/formatter/database.rb:95 | `ski_value` behaves exactly as `pqdb` |
| `DatabaseFormatter.JdbcIgnoresUserWithoutPassword` | mrblib/fifa/formatter/database.rb:39-43 | without a password the URL is `jdbc:oracle:thin:@host:port:sid`, and the user attribute (any value, or none) does not change it |
| `DatabaseFormatter.EmptyPasswordIsPresent` | mrblib/fifa/formatter/database.rb:39-42 | an empty password counts as present: `jdbc` and `sqlplus` differ from the password-less forms |
| `DatabaseFormatter.AbsentReadsAsEmpty` | mrblib/fifa/formatter/database.rb:37-42 | for every attribute except `password`, an absent value and an empty value give the same `jdbc`, `tns` and `sqlplus` text, so a missing attribute only empties its segment |
| `DatabaseFormatter.FindServer` | mrblib/fifa/formatter/database.rb:102-108 | the placeholder planet (own id, type UNKNOWN) when `pqdb` is absent, empty or all `@`; otherwise the planet `find` returns for the text before the first `@` |
| `DatabaseFormatter.FindServerWithoutAt` | mrblib/fifa/formatter/database.rb:103-105 | a non-empty `pqdb` without `@` names its server by the whole value, not the placeholder |
| `DatabaseFormatter.PqdbPath` | mrblib/fifa/formatter/database.rb:90 | `planet['pqdb']&.split('@')&.last` is `nil` exactly when `pqdb` is absent, empty or all `@`, else the text after the last `@` once trailing `@` are trimmed |
| `DatabaseFormatter.PqdbText` | mrblib/fifa/formatter/database.rb:84-90 | the text is the part after the last `@` once trailing `@` are trimmed (empty when absent or all `@`), then `:`, then the resolved server's connection value |
| `DatabaseFormatter.PlaceholderForwardsOwnErrors` | mrblib/fifa/formatter/database.rb:82-88 | when `pqdb` is absent, empty or all `@`, the calls are the `pqdb` check, then a log of the errors held for the planet's own id exactly when there are any |
| `DatabaseFormatter.PqdbOfJoin` | mrblib/fifa/formatter/database.rb:84-90 | for a `pqdb` value made of `@`-free fields with a non-empty last field, the server is looked up by the first field and the text is the last field, `:`, and that server's connection value |
| `DatabaseFormatter.PqdbServerAndPath` | mrblib/fifa/formatter/database.rb:84-90 | `srvA@path/to/db` looks up `srvA` and yields `path/to/db:<value>` |
| `DatabaseFormatter.PqdbWithoutAt` | mrblib/fifa/formatter/database.rb:102-105 | `justpath` looks up `justpath` and yields `justpath:<value>` |
| `DatabaseFormatter.PqdbSeveralAts` | mrblib/fifa/formatter/database.rb:90 | `a@b@c` looks up `a` and yields `c:<value>` |
| `ConnectionSyntax.JdbcTextShape` | mrblib/fifa/formatter/database.rb:36-43 | the URL is `jdbc:oracle:thin:`, then the login (`user/password` when a password is present, else nothing), then `@host:port:sid` |
| `ConnectionSyntax.JdbcRoundTrip` | mrblib/fifa/formatter/database.rb:33-44 | reading the URL gives back user and password (only when a password is present), host, port and sid, provided host and port have no `:` and user and password no `@` (user no `/`) |
| `ConnectionSyntax.JdbcAmbiguousWithAtInPassword` | mrblib/fifa/formatter/database.rb:40 | a password containing `@` makes two different planets share one URL |
| `ConnectionSyntax.TnsTextShape` | mrblib/fifa/formatter/database.rb:72 | for every planet, the descriptor is the fixed template with host, port and sid inserted verbatim, each absent one as the empty string |
| `ConnectionSyntax.TnsRoundTrip` | mrblib/fifa/formatter/database.rb:72 | reading the descriptor gives back host, port and sid, provided host and port contain no `)` |
| `ConnectionSyntax.SqlplusTextShape` | mrblib/fifa/formatter/database.rb:55-60 | the SqlPlus string is the login, `@`, and the TNS descriptor wrapped as `"@…"` |
| `ConnectionSyntax.SqlplusRoundTrip` | mrblib/fifa/formatter/database.rb:52-62 | reading the SqlPlus string gives back the user, the password exactly as present or absent, and the TNS host, port and sid, provided the user has no `@` or `/`, a present password has no `@`, and host and port have no `)` |

## Left out

- What `log_if_missing` and `log` do: they live in the base formatter and the logger, which are not part of this model. The model records only the calls made and their arguments. It makes no claim that a missing attribute raises an error or leads to a given number of diagnostics.
- `Fifa::Planet.find`, `Planet.new` beyond the two attributes it is given, and `server.connection(:ssh)`: these are parameters (`Services`). A failure inside them is not modelled. The connection value is taken to be a string.
- The logger's error list is a parameter read once, after the connection call. How earlier calls to the logger change that list is global logger state and is not modelled.
- The value of `Fifa::Planet::UNKNOWN` is defined in the planet class, which is not part of this model. It is a parameter here.
- The base formatter's dispatch by method name, and whether the `private alias` makes `ski_value` reachable as a method.
- Ruby's `split(' ')`, which splits on runs of whitespace, is not modelled. Only separators other than a space are, and the formatter uses `'@'`.
