# git-parser: the loose-object parser, modelled in Dafny

git-parser reads one loose object from a repository's object store. It
inflates the object and parses its decompressed form, `<type> <size>\0<body>`,
into an `Object`. `Parse` works on a `bytes.Buffer`:

- It reads the type word with `bufio.ScanWords`.
- It reads the size text up to the first NUL byte with `ReadBytes`, then
  converts it with `strconv.Atoi`.
- It wraps the rest of the buffer in a line `bufio.Scanner`, throws one line
  away, and hands the scanner to `parseCommit`.

`parseCommit` splits each remaining line on single spaces and switches on
the first field:

- `tree` sets the tree.
- `parent` appends a parent.
- `committer` takes the username and email from the next two fields, and
  the rest of the line, re-joined with spaces, as the timestamp.
- Every other line, `author` included, changes nothing.

This project models that code and proves what it does:

- the header round-trips for every 64-bit size;
- each error arises exactly when it should;
- parents keep their order;
- the last `tree` and `committer` lines win;
- the author is never set;
- once the type word is ended by whitespace, the first line after the NUL never counts, whether it ends in a newline or is the whole body;
- a typical commit decodes to the `Object` the code produces.

Files:

- `wrappers.dfy`: `Option` and `Result`.
- `strings.dfy`: `bytes.IndexByte`, `bytes.Cut`, `strings.Split` and `strings.Join` with a one-byte separator, and the Split/Join round trip.
- `strconv.dfy`: `strconv.Atoi` on a 64-bit platform with its `ErrSyntax`/`ErrRange` errors, and the decimal formatter that inverts it.
- `bytes_buffer.dfy`: `bytes.Buffer` as a class with a byte string and a read offset (`Next`, `ReadBytes`, and reading to the end, whose last read resets the buffer).
- `bufio.dfy`: the `ScanWords` whitespace set, the `ScanLines` tokenizer as a function (`Lines`), and `Scanner` as a class.
- `git_object.dfy`: the `Object`, `Commit` and `person` types, `parseType`, `parseSize`, `parseCommit` (its loop holds the switch, whose effect on one line is the function `ApplyLine`), and `Parse`, whose three scanner lines (main.go:104-106) are the method `ScanBody`. Two functions state what `Parse` does to a given input. `Decode` gives what it returns, and `Unread` gives what it leaves in the buffer.
- `commit_properties.dfy`: what a run of lines does to a commit.
- `decode_properties.dfy`: what `Parse` makes of whole inputs.

A Go `[]byte` is a `string` here, one `char` per byte. Go's runtime panic
on a line with too few fields is the `IndexPanic` error. Errors are values:
`EOF` from `ReadBytes`, and `NumError` carrying the `strconv` error kind.

The model follows main.go as written. It differs from what a full git object
decoder would do:

- There is no dispatch on the type word: every body is parsed as a commit.
- There is no tree, blob or tag decoder, and no check of the declared size.
- The first body line is skipped, and that is where the `tree` line sits in a real commit.
- The `tree` value is not resolved to a nested tree object.
- `author` lines are ignored.
- Person fields are taken by position, not by locating the `<…>` email.
- The type word may be any whitespace-free word, and it may be empty.

## Model

| member | source | states |
|---|---|---|
| Strings.IndexOf | main.go:48 | the first index holding the byte, with none before it; None exactly when the byte does not occur |
| Strings.Cut | main.go:48-52 | the text before the first NUL, which holds no NUL, and the text after it, which together with the NUL make up the input; None exactly when there is no NUL |
| Strings.CutAt | main.go:48-52 | text free of the separator, then the separator, is cut exactly there, whatever follows |
| Strings.Join | main.go:67 | the join starts with the first piece, and separator-free pieces are joined with exactly one separator between each two (one fewer separators than pieces); SplitJoin shows Split undoes it |
| Strings.Split | main.go:59 | one more piece than separators, no piece contains the separator, and joining the pieces gives the line back |
| Strings.SplitJoin | main.go:67 | splitting the join of separator-free pieces gives back those pieces, so Split and Join are inverse |
| Strconv.Atoi | main.go:99 | every value Atoi accepts lies in the signed 64-bit range |
| Strconv.AtoiSpec | main.go:99-102 | Atoi succeeds exactly on an optional sign followed by at least one decimal digit whose value fits in 64 signed bits, and returns that value |
| Strconv.ShortNeverRange | main.go:99 | texts shorter than 19 bytes never give ErrRange, so Atoi's short fast path agrees with the general path modelled |
| Strconv.AtoiItoa | main.go:99 | Atoi reads back the decimal text of every signed 64-bit integer |
| Bytes.Buffer.constructor | main.go:133-134 | stands for the caller's buffer filled with the inflated object: its unread bytes are the given contents |
| Bytes.Buffer.Next | main.go:89 | returns the first n unread bytes, or all of them when fewer remain, and moves past exactly those |
| Bytes.Buffer.ReadBytes | main.go:48-51 | returns the bytes up to and including the first delimiter and moves past them; with no delimiter, reports EOF, returns all that is left and empties the buffer |
| Bytes.Buffer.ReadAll | main.go:104 | hands over every unread byte; the read that finds the buffer drained resets it, so its byte slice is empty and its offset zero |
| Bufio.Lines | main.go:57-58 | the ScanLines tokens: none exactly for empty input, and no token holds a newline |
| Bufio.LinesCRLF | main.go:57-58 | a carriage return just before a newline is dropped along with it |
| Bufio.LinesFinal | main.go:57-58 | text after the last newline is a final line of its own, less one trailing carriage return |
| Bufio.ScanLine | main.go:57 | one ScanLines step on non-empty data advances at least one byte, returns the first line, and leaves exactly the other lines to come |
| Bufio.LinesUnlines | main.go:57-58 | ScanLines gives back the lines that were written one per newline, when none holds a newline or ends in a carriage return |
| Bufio.Scanner.constructor | main.go:104 | the scanner will produce the lines of everything left in the buffer, and the buffer is left reset to empty |
| Bufio.Scanner.Text | main.go:58 | the line the last Scan produced, which never holds a newline (Scan's contract says which line it is) |
| Bufio.Scanner.Scan | main.go:57 | true exactly when a line is left; then the token is that line and the remaining lines lose it; false leaves nothing to come |
| GitObject.ParseType | main.go:43-45 | ScanWords without EOF: a non-empty word is the whitespace-free run after the leading whitespace, and the advance is one past the whitespace byte ending it; without that byte the word is empty and only the leading whitespace is consumed |
| GitObject.ParseSize | main.go:47-53 | EOF and an emptied buffer exactly when no NUL is left; otherwise the NUL-free text before the first NUL, with the buffer moved past that NUL |
| GitObject.ApplyFields | main.go:59-81 | the switch on a line's fields: a result that is not a panic keeps the author, keeps the earlier parents as a prefix and adds at most one; SwitchCases and ApplyLineEffect give it case by case |
| GitObject.ApplyLine | main.go:59-81 | one line's effect on the commit built so far fails exactly when the line panics (Panics: a tree or parent line without a second field, a committer line without a third) |
| GitObject.ApplyLineEffect | main.go:59-81 | a line panics exactly when Panics holds; no line changes the author; a line whose keyword is not tree, parent or committer changes nothing |
| GitObject.ApplyLinesAppend | main.go:57-82 | a panic in the first run of lines ends the loop; otherwise the second run is applied to the commit the first run built |
| GitObject.ApplyLinesCons | main.go:57-82 | the first line is applied first, a panic there ends the loop, and the rest is applied to its outcome |
| GitObject.ParseCommit | main.go:55-84 | the loop, with the switch on each line's first field inline, yields all remaining lines applied in order to the zero Commit, or the panic of the first line with too few fields; a successful parse consumes every line |
| GitObject.ScanBody | main.go:104-106 | a line scanner over the rest of the buffer, one line skipped, then parseCommit: the commit of the body lines after the first, and the buffer reset to empty |
| GitObject.Parse | main.go:86-113 | the result is Decode of the buffer's unread bytes: the type word, the Atoi value of the text before the next NUL or its error, and the commit of the body lines after the first, or EOF or IndexPanic. What is left unread is Unread of the input: the bytes after the NUL when Atoi fails, and nothing otherwise. A parsed object leaves the buffer reset to empty, and EOF or an Atoi error leaves its bytes as they were |
| CommitProperties.ApplyLinesSucceeds | main.go:57-82 | a run of lines builds a commit exactly when none of its lines panics |
| CommitProperties.ParentsInOrder | main.go:63-64 | the parents are the previous ones followed by the second fields of the parent lines, in encounter order |
| CommitProperties.AuthorNeverSet | main.go:65-73 | no run of lines changes the author: the author case is empty and the author branch inside the committer case is unreachable |
| CommitProperties.IgnoredLinesChangeNothing | main.go:60-81 | lines whose keyword is not tree, parent or committer leave the commit unchanged |
| CommitProperties.TreeUnchanged | main.go:61-62 | without a tree line the tree stays as it was |
| CommitProperties.LastTreeLineWins | main.go:61-62 | the tree is the second field of the last tree line |
| CommitProperties.CommitterUnchanged | main.go:66-80 | without a committer line the committer stays as it was |
| CommitProperties.LastCommitterLineWins | main.go:66-80 | the committer comes from the last committer line: field 1, field 2, and the fields after them re-joined with spaces |
| CommitProperties.TreeLine | main.go:61-62 | `tree h`, with h free of spaces, sets the tree to h |
| CommitProperties.ParentLine | main.go:63-64 | `parent p`, with p free of spaces, appends p to the parents |
| CommitProperties.AuthorLine | main.go:65 | an author line, whatever follows the keyword, leaves the commit unchanged |
| CommitProperties.CommitterLine | main.go:66-80 | `committer u e ts`, with u and e free of spaces, sets the committer to (u, e, ts), spaces in ts included |
| DecodeProperties.ParseTypeOf | main.go:43-45 | leading whitespace, a word and a whitespace byte: the word is returned and the cursor moves just past that byte |
| DecodeProperties.UnterminatedTypeWord | main.go:43-45 | with no whitespace byte after the leading whitespace, the word is empty and only the leading whitespace is consumed |
| DecodeProperties.DecodeSplit | main.go:95-113 | once the first NUL after the type word is found, the result is DecodeSized: decided by Atoi on the text before it and by the body lines after the first |
| DecodeProperties.DecodeAfterWord | main.go:88-113 | after leading whitespace, a type word and a whitespace byte, the size text runs to the first NUL and the body is everything after it, for any NUL-free size text |
| DecodeProperties.DecodeHeader | main.go:86-113 | a header of a type word, a whitespace byte and the decimal text of any 64-bit size round-trips to that word and size, with the commit built from the body lines after the first |
| DecodeProperties.DecodeErrors | main.go:95-109 | given a NUL, the result is never EOF; a size text Atoi rejects gives its NumError; otherwise IndexPanic exactly when a counted body line panics; a success has an integer size text and its value |
| DecodeProperties.MissingNul | main.go:47-51 | the result is EOF exactly when no NUL byte follows the type word |
| DecodeProperties.FirstBodyLineIgnored | main.go:104-105 | when the type word is ended by a whitespace byte before the NUL, replacing the first line after the NUL never changes the result, for any NUL-free size text, valid or not, both for a newline-terminated first line and for a body that is one line without a newline |
| DecodeProperties.DecodeOneLine | main.go:104-105 | a body that is one line without a newline leaves no lines for parseCommit: the result is that of an empty body |
| DecodeProperties.TreeOnFirstLineNotRecorded | main.go:104-106 | a tree line that is the first body line is skipped: when no later line is a tree line, any parsed object's tree is empty, whatever the other lines and the size text |
| DecodeProperties.FirstTreeLineSkipped | main.go:104-106 | once the size text and body are split, a tree line in first body position, with no later tree line, leaves any parsed commit's tree empty |
| DecodeProperties.DecodedAuthorIsNil | main.go:65-73 | every parsed object has a nil Author |
| DecodeProperties.DecodedParents | main.go:63-64 | a parsed object's parents are the parent lines' values after the first body line, in order |
| DecodeProperties.UnterminatedTypeExample | main.go:43-45 | `12\0` parses with an empty type and size 12: the size is read from the start of the input |
| DecodeProperties.TypicalLinesApply | main.go:57-82 | the lines after a typical commit's tree line (two parents, author, committer, blank line, message) give those parents in order, no author, and the positional committer |
| DecodeProperties.TypicalCommit | main.go:86-113 | a typical commit object parses to its type word and size, an empty tree, both parents in order, a nil author and the committer split by position |

## Left out

- `main` (main.go:115-147): the argument check, the object path under `.git/objects`, opening the file, zlib inflation and printing. These are I/O and external libraries. The model starts from the decompressed bytes in a buffer.
- Whitespace in `ScanWords` is the ASCII set (tab, newline, vertical tab, form feed, carriage return, space). Go also treats the UTF-8 encodings of U+0085, U+00A0 and the Unicode space runes as separators, and a type word using them is not modelled.
- Bufio.Scanner.constructor: it reads the whole buffer up front, while Go reads in chunks. It also has no 64 KiB token limit, so an over-long line, which would stop Go's scanner with `ErrTooLong`, is scanned as an ordinary line.
- `parseCommit`'s error result is always nil and `Scan`'s error is never inspected, so neither is modelled.
- GitObject.Parse: `parseType`'s error is always nil (ScanWords without EOF never fails), so the check after `buf.Next` is never taken and is not modelled.
- The Go `Author` and `Committer` types are both `Person`, and a nil pointer is `None`. A nil `Parent` slice and an empty one are both the empty sequence.
- A runtime panic is a value, `IndexPanic`, not an abort of the process.
- The unused constant `typeMaxLen` is not modelled.
- GitObject.Parse: when a body line panics, Go aborts with the scanner's reads of the buffer wherever its chunked reads had got to. The model states a buffer reset to empty, because its scanner reads everything up front, and its contract says nothing of the buffer's byte slice in that case.
- FirstBodyLineIgnored: holds only when the type word is ended by a whitespace byte before the NUL. Otherwise `ScanWords` can end the word inside the body, and the first body line then matters. For example, `12\0x\n5\0` gives the type word `12\0x` and size 5.
