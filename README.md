# jbash core, modelled in Dafny

jbash is a small shell written in Java, part of the juiceOS project. This project
models the core of jbash and proves properties of that model. The core has five parts:

- **Command-line scanner.** `jbash.parser.JBashLexer` is a cursor-driven scanner over
  the input text. `jbash.parser.JBashParser.parseCommand` turns its tokens into the
  argument vector. It concatenates the lexemes and splits them on the `'\0'` separator
  that every run of blanks becomes.
- **Older scanner.** `Parser.JBashParser` is an older scanner snapshot. It uses the same
  cursor style, with different failure behaviour.
- **Helper.** `JBashUtils.findFirstOf`.
- **File tree.** The in-memory file tree: `FileSystemAPI`, `FileSystemObject`,
  `Directory` and `File`.
- **Shell state.** The variable tables `JEnvironment` and `JBashEnvironment`, the
  per-descriptor output buffers of `JProcess`, and the permission parser of `Inode`.

## How the model is organised

**Modules.** The project has one module per source unit:

| Module | Models |
|---|---|
| `Outcomes` | Shared option and result types |
| `Tokens` | The token kinds |
| `JavaText` | The Java library behaviour the code depends on: `Arrays.toString(char[])`, `String.indexOf` and `String.split` |
| `JBashUtils` | `findFirstOf` |
| `JBashLexer` | The new scanner |
| `JBashParser` | `parseCommand` |
| `LegacyParser` | The older scanner |
| `FileSystem` | The file tree |
| `Environment` | The two variable tables |
| `Process` | The descriptor buffers of `JProcess` |
| `Inode` | The permission parser |

**Outcomes.** A Java operation either produces a value, throws an exception with a
message, or crashes reading past the end of a string or array. The model's `Result`
datatype has one constructor for each: `Ok`, `Err` and `OutOfBounds`.

**Classes and specifications.** The objects whose fields the source updates are classes:
- the two scanners;
- the file-system objects and the API object;
- the variable tables;
- the process and its buffers.

Each method is proved against a specification function:
- the scanner's `nextToken` against `TokenAt` (`OldTokenAt` for the older scanner);
- `processTokens` against `LexFrom`;
- `getFileSystemObject` against `Resolve`;
- `send` and `fdFlush` against `SendSpec` and `FlushSpec`.

The properties the source promises are then proved as lemmas about those functions.

**Where the model follows the code rather than its comments:**
- **Token positions.** Words, string literals, sentinel regions and blank runs carry
  the cursor reached after `consume()`, which is their end offset, because `consume()`
  runs in its own statement before the token is built. `>`, `$`, the bracket groups and
  the character after a backslash carry their start.
- **`findFirstOf` never reports a match, whatever its documentation says.** The
  reduction starts from `("", -1)`, and -1 wins every comparison. So the quote pass of
  the new scanner never runs its body and leaves the text unchanged
  (`JBashUtils.FindFirstOfNeverFinds`, `JBashUtils.FindFirstOfIgnoresMatch`).
- **A seek treats more characters as targets than requested.** The membership test
  `Arrays.toString(targets).indexOf(c)` also matches `[` and `]`, and matches `,` and
  space once there are two targets. `JBashLexer.IsTarget` states this in closed form.

## Model

| member | source | states |
|---|---|---|
| JavaText.InArraysToString | src/main/java/jbash/parser/JBashLexer.java:82 | A character occurs in the Arrays.toString text of a target list exactly when it is a bracket, one of the targets, or (with two or more targets) a comma or a space |
| JavaText.IntToString | src/main/java/jbash/environment/JProcess.java:69 | The decimal text of an int is non-empty and starts with '-' exactly when the int is negative |
| JavaText.NatToStringValue | src/main/java/jbash/environment/JProcess.java:69 | The digits written for a natural number spell that number back, and none but 0 starts with '0' |
| JavaText.IntToStringValue | src/main/java/jbash/environment/JProcess.java:69 | A non-negative int is written as its digits; a negative one as '-' followed by the digits of its magnitude |
| JavaText.IndexOf | src/main/java/jbash/jbashutils/JBashUtils.java:28 | String.indexOf gives an index where the needle occurs, at or after the start (a start past the end finds only the empty needle, at the end), with no occurrence between the start and it; -1 means no occurrence at or after the start |
| JavaText.SplitAll | src/main/java/jbash/parser/JBashParser.java:20 | Cutting at every separator gives at least one piece and no piece contains the separator |
| JavaText.JoinSplitAll | src/main/java/jbash/parser/JBashParser.java:20 | Joining the pieces of a full split with the separator gives the text back |
| JavaText.SplitAllJoin | src/main/java/jbash/parser/JBashParser.java:20 | Splitting separator-free pieces joined by the separator gives the pieces back |
| JavaText.JavaSplitJoin | src/main/java/jbash/parser/JBashParser.java:20 | Splitting non-empty separator-free pieces joined by the separator gives exactly those pieces back |
| JavaText.JavaSplitShape | src/main/java/jbash/parser/JBashParser.java:20 | When the separator occurs, split's pieces are separator-free, the last is non-empty, and joining them gives the text minus its trailing separators |
| JavaText.DropTrailingEmpty | src/main/java/jbash/parser/JBashParser.java:20 | The trailing-empty removal of split keeps a prefix whose last piece is non-empty and drops only empty pieces |
| JBashUtils.Located | src/main/java/jbash/jbashutils/JBashUtils.java:28 | The map step pairs every needle, in order, with its indexOf from startIndex |
| JBashUtils.Found | src/main/java/jbash/jbashutils/JBashUtils.java:29 | The filter keeps exactly the pairs whose index is not -1 |
| JBashUtils.FindFirstOf | src/main/java/jbash/jbashutils/JBashUtils.java:21-31 | An empty needle list is the RuntimeException; any other needle list gives a result |
| JBashUtils.ReduceFromNotFound | src/main/java/jbash/jbashutils/JBashUtils.java:30 | Reducing pairs with non-negative indexes from ("", -1) gives ("", -1) |
| JBashUtils.FindFirstOfNeverFinds | src/main/java/jbash/jbashutils/JBashUtils.java:26-30 | For every haystack, start and non-empty needle list the result is ("", -1) |
| JBashUtils.FindFirstOfIgnoresMatch | src/main/java/jbash/jbashutils/JBashUtils.java:11-19 | In "a'b" indexOf finds the quote at 1, yet findFirstOf reports ("", -1), against its documentation |
| JBashLexer.IsTargetText | src/main/java/jbash/parser/JBashLexer.java:82 | The closed-form target test is exactly membership in Arrays.toString(targets) |
| JBashLexer.KeywordTypeExact | src/main/java/jbash/parser/JBashLexer.java:21-37 | A text gets a kind other than Word exactly when it is one of the twelve reserved words, and that kind spells the word back |
| JBashLexer.ScanFor | src/main/java/jbash/parser/JBashLexer.java:80-82 | The scan stops at the first target from its start, and finds nothing only when no target follows |
| JBashLexer.ScanNotEscaped | src/main/java/jbash/parser/JBashLexer.java:100-102 | The scan stops at the first target not preceded by a backslash, and finds nothing only when there is none |
| JBashLexer.RunEnd | src/main/java/jbash/parser/JBashLexer.java:198 | The end of a blank run: every character before it is a space or tab and the one at it is not |
| JBashLexer.TokenAt | src/main/java/jbash/parser/JBashLexer.java:176-242 | A scan step never moves the cursor backwards or past the end, and advances it for every token that does not end the line |
| JBashLexer.Lexer.constructor | src/main/java/jbash/parser/JBashLexer.java:40-44 | The lexer starts on the input with both cursors at 0 and no tokens |
| JBashLexer.Lexer.Skip | src/main/java/jbash/parser/JBashLexer.java:69-71 | skip puts the cursor at the end |
| JBashLexer.Lexer.Seek | src/main/java/jbash/parser/JBashLexer.java:78-91 | seek succeeds exactly when a target follows the cursor, then stands strictly after the old cursor and before the end on a target; on failure the cursor is restored |
| JBashLexer.Lexer.SeekNotEscaped | src/main/java/jbash/parser/JBashLexer.java:98-111 | As seek, and the character before the stop is not a backslash |
| JBashLexer.Lexer.SeekUntil | src/main/java/jbash/parser/JBashLexer.java:118-125 | On success the cursor is one before seek's stop; on failure it is restored |
| JBashLexer.Lexer.SeekUntilNotEscaped | src/main/java/jbash/parser/JBashLexer.java:132-139 | On success the cursor is one before seekNotEscaped's stop; on failure it is restored |
| JBashLexer.Lexer.Match | src/main/java/jbash/parser/JBashLexer.java:146-155 | match succeeds exactly when not at the end and the current character is one of the matches, and then steps over it; otherwise nothing moves |
| JBashLexer.Lexer.Consume | src/main/java/jbash/parser/JBashLexer.java:162-168 | consume returns the text from start through the cursor, clamped at the end, and leaves start at the new cursor |
| JBashLexer.Lexer.NextToken | src/main/java/jbash/parser/JBashLexer.java:176-242 | nextToken returns the token (or exception) of TokenAt at the cursor and leaves both cursors where TokenAt says |
| JBashLexer.Lexer.NextEscaped | src/main/java/jbash/parser/JBashLexer.java:180-186 | The backslash case: the next character as EOL or Word, or a read past the end |
| JBashLexer.Lexer.NextSentinelRegion | src/main/java/jbash/parser/JBashLexer.java:188-195 | The escape-sentinel case: the region without its two end characters, or the internal parser error |
| JBashLexer.Lexer.NextWhitespace | src/main/java/jbash/parser/JBashLexer.java:196-203 | The blank case: one Whitespace token "\0" for the whole run |
| JBashLexer.Lexer.NextStringLit | src/main/java/jbash/parser/JBashLexer.java:205-212 | The single-quote case: the quoted text with the quotes peeled off, or the no-matching error |
| JBashLexer.Lexer.NextGroup | src/main/java/jbash/parser/JBashLexer.java:213-230 | The bracket cases: the text through the seek's stop, or the no-matching error at the opener's index |
| JBashLexer.Lexer.NextWord | src/main/java/jbash/parser/JBashLexer.java:234-240 | The default case: the text up to the next unescaped special character or the end, with its keyword kind |
| JBashLexer.Lexer.ProcessQuotes | src/main/java/jbash/parser/JBashLexer.java:247-303 | The quote pass leaves the text unchanged |
| JBashLexer.Lexer.ProcessTokens | src/main/java/jbash/parser/JBashLexer.java:309-316 | processTokens appends exactly the tokens of LexFrom up to the first EOF or EOL, or fails with the scan's own failure |
| JBashLexer.LexCommand | src/main/java/jbash/parser/JBashLexer.java:318-326 | lexCommand computes Lex: no tokens for empty input, else the scan from 0 |
| JBashLexer.LexFromTerminated | src/main/java/jbash/parser/JBashLexer.java:309-316 | A successful scan is non-empty, ends with EOF or EOL, and has no earlier EOF or EOL |
| JBashLexer.LexShape | src/main/java/jbash/parser/JBashLexer.java:318-326 | lexCommand("") is empty; any other successful result is non-empty and ends with its only EOF or EOL |
| JBashLexer.SpecialTarget | src/main/java/jbash/parser/JBashLexer.java:12-14 | A word ends at one of the special characters or a comma, never at a tab |
| JBashLexer.UnmatchedOpener | src/main/java/jbash/parser/JBashLexer.java:205-230 | A quote or opening bracket fails exactly when no target of its seek follows, and then with msgNoMatching at the opener's own index |
| JBashLexer.UnexpectedCloser | src/main/java/jbash/parser/JBashLexer.java:233 | A scan step fails with "Unexpected token c" exactly when c is a closing bracket at the cursor |
| JBashLexer.WhitespaceRun | src/main/java/jbash/parser/JBashLexer.java:196-203 | A blank run is one Whitespace token "\0" ending where the run ends, and the next token is not Whitespace |
| JBashLexer.OnlyBlankIsWhitespace | src/main/java/jbash/parser/JBashLexer.java:196 | Only a space or tab at the cursor yields a Whitespace token |
| JBashLexer.NoAdjacentWhitespace | src/main/java/jbash/parser/JBashLexer.java:196-203 | No two consecutive tokens of a scan are both Whitespace |
| JBashLexer.WordExtent | src/main/java/jbash/parser/JBashLexer.java:234-240 | A default-case word runs to the first unescaped special character (its first character untested) or the end, and is a keyword kind exactly when it is a reserved word |
| JBashLexer.LineEnds | src/main/java/jbash/parser/JBashLexer.java:179-186 | A newline gives EOF without consuming; backslash-newline gives EOL "\n"; a final backslash reads past the input |
| JBashLexer.TokenAtEnd | src/main/java/jbash/parser/JBashLexer.java:177 | At the end of input the token is EOF with empty text |
| JBashParser.ParseCommand | src/main/java/jbash/parser/JBashParser.java:12-21 | No argument contains the separator '\0' |
| JBashParser.ParseCommandShape | src/main/java/jbash/parser/JBashParser.java:12-21 | Empty input gives []; a lexer failure is returned with no partial list; otherwise concatenated lexemes without a '\0' are the one argument, and with one the arguments are '\0'-free, the last is non-empty, and joined with '\0' they give the text up to its trailing separators |
| JBashParser.ParseCommandLexed | src/main/java/jbash/parser/JBashParser.java:16-20 | For non-empty input that lexes, the result is String.split of the concatenated lexemes on '\0' |
| JBashParser.BlanksLex | src/main/java/jbash/parser/JBashLexer.java:196-203 | Input of blanks only lexes to one Whitespace token and EOF, both at its length |
| JBashParser.BlanksOnly | src/main/java/jbash/parser/JBashParser.java:16-20 | Input of blanks only gives no arguments |
| JBashParser.LexPlainWords | src/main/java/jbash/parser/JBashParser.java:17-19 | The lexemes of words separated by single spaces concatenate to the words joined by '\0' |
| JBashParser.PlainWords | src/main/java/jbash/parser/JBashParser.java:12-21 | Plain words separated by single spaces come back as exactly those words |
| JBashParser.AprilAndJune | src/test/java/jbash/ShellTests.java:36-37 | "april and june" gives ["april", "and", "june"] |
| JBashParser.QuotedTokens | src/main/java/jbash/parser/JBashLexer.java:205-240 | "'april'and'june'" lexes to two string literals around a word, then EOF |
| JBashParser.QuotedConcatenation | src/test/java/jbash/ShellTests.java:74-75 | "'april'and'june'" gives the single argument "aprilandjune" |
| LegacyParser.OldTokenAt | src/Parser/JBashParser.java:131-177 | A scan step never moves the cursor backwards or past the end, advances for every non-EOF token, never yields Whitespace, crashes only at the input length, and yields EOF only at the end |
| LegacyParser.OldWordEnd | src/Parser/JBashParser.java:170-175 | A word ends at the first unescaped special character after its first character, or at the end |
| LegacyParser.OldQuotedToken | src/Parser/JBashParser.java:142-148 | A quote never throws: it yields a StringFormat or StringLit token of at least two characters, or crashes reading past the end |
| LegacyParser.OldGroupToken | src/Parser/JBashParser.java:149-166 | A bracket never crashes: it yields a token of its group kind or the no-matching error at the input length |
| LegacyParser.OldBlankAt | src/Parser/JBashParser.java:134-140 | A blank run is skipped to the token after it, or crashes when it reaches the end |
| LegacyParser.JBashParser.constructor | src/Parser/JBashParser.java:13-17 | The parser starts on the input with both cursors at 0 |
| LegacyParser.JBashParser.Seek | src/Parser/JBashParser.java:40-53 | seek succeeds exactly when a target follows and stops on the first one; on failure the cursor stays at the end |
| LegacyParser.JBashParser.SeekNotEscaped | src/Parser/JBashParser.java:60-73 | As seek for the first target not preceded by a backslash; on failure the cursor stays at the end |
| LegacyParser.JBashParser.SeekUntil | src/Parser/JBashParser.java:80-87 | On success the cursor is one before seek's stop; on failure it is at the end |
| LegacyParser.JBashParser.SeekUntilNotEscaped | src/Parser/JBashParser.java:93-100 | On success the cursor is one before seekNotEscaped's stop; on failure it is at the end |
| LegacyParser.JBashParser.Match | src/Parser/JBashParser.java:106-114 | match never throws; it reads past the array exactly when at the end with a non-empty list, else steps over a matching character |
| LegacyParser.JBashParser.Consume | src/Parser/JBashParser.java:119-123 | consume returns str[start..current+1] and leaves start at the new cursor |
| LegacyParser.JBashParser.NextToken | src/Parser/JBashParser.java:131-177 | nextToken returns the token (or failure) of OldTokenAt at the cursor and leaves both cursors where OldTokenAt says |
| LegacyParser.JBashParser.SkipBlanks | src/Parser/JBashParser.java:134-140 | The blank case crashes when the run reaches the end, else returns the token after the run |
| LegacyParser.JBashParser.NextQuoted | src/Parser/JBashParser.java:142-148 | The quote case computes OldQuotedToken |
| LegacyParser.JBashParser.NextGroup | src/Parser/JBashParser.java:149-166 | The bracket cases compute OldGroupToken |
| LegacyParser.JBashParser.NextWord | src/Parser/JBashParser.java:170-175 | The default case returns the Word from the cursor to OldWordEnd |
| LegacyParser.ParseCommand | src/Parser/JBashParser.java:180-190 | parseCommand returns the tokens up to and including the first EOF, or the first failure |
| LegacyParser.OldLexShape | src/Parser/JBashParser.java:180-190 | A successful result ends with its only EOF token, whose text is empty, and has no Whitespace token; a crash reads the index just past the input |
| LegacyParser.EndsAtOnlyEofCons | src/Parser/JBashParser.java:184-188 | A token that is neither EOF nor Whitespace keeps that shape when put in front |
| LegacyParser.TrailingBlanks | src/Parser/JBashParser.java:136 | Blanks that run to the end of input read past the array |
| LegacyParser.BlanksSkipped | src/Parser/JBashParser.java:134-140 | Blanks before anything else are skipped: the token is the one after the run |
| LegacyParser.OldQuotedFails | src/Parser/JBashParser.java:143-145 | A quote never throws the no-matching error; it crashes exactly when no unescaped copy of the quote follows |
| LegacyParser.OldQuoted | src/Parser/JBashParser.java:142-148 | A quoted token runs from the opening quote through the stop, both included, and is StringFormat exactly when the stop is '"', which only a '"' token reaches |
| LegacyParser.OldTokenQuote | src/Parser/JBashParser.java:142 | At a quote, the scan step is the quote case |
| LegacyParser.OldQuotedStop | src/Parser/JBashParser.java:143-147 | When the scan stops at j, the token is the text cur..j inclusive, positioned at cur, with the cursor at j + 1 |
| LegacyParser.OldUnmatchedGroup | src/Parser/JBashParser.java:149-166 | An opening bracket fails exactly when no target of its seek follows, and then with msgNoMatching at the input length |
| LegacyParser.OldUnexpectedCloser | src/Parser/JBashParser.java:169 | A closing bracket fails with "Unexpected token c" |
| LegacyParser.OldSpecialTarget | src/Parser/JBashParser.java:6-7 | A word ends at one of the eight special characters or a comma, never at a tab or quote |
| LegacyParser.OldWordExtent | src/Parser/JBashParser.java:170-175 | A word runs from the cursor to the first unescaped special character after it, or to the end |
| LegacyParser.TrailingSpaceCrash | src/Parser/JBashParser.java:106-114 | "ls " reads past the array at index 3, so the whole command fails |
| FileSystem.ChildPath | src/main/java/jbash/filesystem/FileSystemObject.java:27-31 | A child of the root (its own parent) gets "/" + name; any other gets parent's path + "/" + name |
| FileSystem.FirstNamed | src/main/java/jbash/filesystem/Directory.java:22-24 | The index of the first child with the name, every earlier one named differently |
| FileSystem.RemoveFirst | src/main/java/jbash/filesystem/Directory.java:18-20 | List.remove drops one element when the object occurs and keeps only elements of the list |
| FileSystem.RemoveFirstCut | src/main/java/jbash/filesystem/Directory.java:18-20 | removeChild cuts out exactly the first occurrence, the others keeping their order |
| FileSystem.FindAfterAdd | src/main/java/jbash/filesystem/Directory.java:14-24 | After appending x to children with no child of x's name, the first child of that name is x |
| FileSystem.FileSystemObject.Directory | src/main/java/jbash/filesystem/FileSystemObject.java:8-17 | new Directory: a null parent makes it its own parent with path "/"; otherwise its path derives from the parent |
| FileSystem.FileSystemObject.File | src/main/java/jbash/filesystem/File.java:6-8 | new File(name, parent): no contents, parent and path as for any object |
| FileSystem.FileSystemObject.FileWithContents | src/main/java/jbash/filesystem/File.java:10-13 | new File(name, parent, contents) stores the contents |
| FileSystem.FileSystemObject.UpdatePath | src/main/java/jbash/filesystem/FileSystemObject.java:27-31 | updatePath changes only this object's path, computed from the parent's stored path |
| FileSystem.FileSystemObject.SetName | src/main/java/jbash/filesystem/FileSystemObject.java:37-39 | setName changes the name only |
| FileSystem.FileSystemObject.SetParent | src/main/java/jbash/filesystem/FileSystemObject.java:41-43 | setParent changes the parent only |
| FileSystem.FileSystemObject.AddChild | src/main/java/jbash/filesystem/Directory.java:14-16 | addChild appends at the end |
| FileSystem.FileSystemObject.RemoveChild | src/main/java/jbash/filesystem/Directory.java:18-20 | removeChild drops the first occurrence |
| FileSystem.FileSystemObject.FindChild | src/main/java/jbash/filesystem/Directory.java:22-24 | findChild is empty exactly when no child has the name, else the first child with it |
| FileSystem.FileSystemObject.SetContents | src/main/java/jbash/filesystem/File.java:19-21 | After setContents(c), getContents() is c |
| FileSystem.PathComponentsAll | src/main/java/jbash/filesystem/FileSystemAPI.java:21 | Filtering empty pieces makes split's trailing-empty removal irrelevant |
| FileSystem.SlashesOnly | src/main/java/jbash/filesystem/FileSystemAPI.java:21-22 | A path of slashes only has no components |
| FileSystem.LeadingSlash | src/main/java/jbash/filesystem/FileSystemAPI.java:21 | A leading slash adds no component |
| FileSystem.FileSystemAPI.constructor | src/main/java/jbash/filesystem/FileSystemAPI.java:11-14 | The tree is a root called "root", its own parent with path "/", no children, and the current directory |
| FileSystem.FileSystemAPI.GetFileSystemObject | src/main/java/jbash/filesystem/FileSystemAPI.java:17-59 | getFileSystemObject returns what Resolve says the path names |
| FileSystem.FileSystemAPI.WalkFrom | src/main/java/jbash/filesystem/FileSystemAPI.java:29-57 | The component loop returns exactly what ResolveFrom says the walk from the starting directory reaches |
| FileSystem.FileSystemAPI.DirectoryAt | src/main/java/jbash/filesystem/FileSystemAPI.java:83 | The directory a path names, when what it names is a directory |
| FileSystem.FileSystemAPI.AddNew | src/main/java/jbash/filesystem/FileSystemAPI.java:76-78 | Exactly one fresh object with the given name, kind and contents is appended to the parent and findChild finds it |
| FileSystem.FileSystemAPI.Construct | src/main/java/jbash/filesystem/FileSystemAPI.java:76 | new Directory or new File gives a fresh object with the name, kind, contents and parent asked for, no children, and its path derived from the parent |
| FileSystem.FileSystemAPI.Attach | src/main/java/jbash/filesystem/Directory.java:14-16 | addChild of a new object keeps the tree valid: it is appended, findChild finds it and names stay unique |
| FileSystem.FileSystemAPI.CreateFile | src/main/java/jbash/filesystem/FileSystemAPI.java:73-79 | Succeeds exactly when the parent is not null, the name is non-empty and not taken, then adds one fresh file (name, parent, path, no contents) to the end of the parent's children and changes no other field of any object, the parent's name, parent, path and contents included; otherwise nothing changes |
| FileSystem.FileSystemAPI.CreateFileAt | src/main/java/jbash/filesystem/FileSystemAPI.java:81-88 | Succeeds exactly when the path names a directory and the name is non-empty and not taken in it, then appends one fresh file to that directory's children and changes no other field of any object; otherwise nothing changes |
| FileSystem.FileSystemAPI.CreateFileWithContents | src/main/java/jbash/filesystem/FileSystemAPI.java:90-96 | As createFile, the new file holding the contents; only the parent's children change |
| FileSystem.FileSystemAPI.CreateFileWithContentsAt | src/main/java/jbash/filesystem/FileSystemAPI.java:98-105 | As createFile by path, the new file holding the contents; only the resolved directory's children change |
| FileSystem.FileSystemAPI.CreateDirectory | src/main/java/jbash/filesystem/FileSystemAPI.java:107-113 | As createFile, adding an empty directory; only the parent's children change |
| FileSystem.FileSystemAPI.CreateDirectoryAt | src/main/java/jbash/filesystem/FileSystemAPI.java:115-122 | As createFile by path, adding an empty directory; only the resolved directory's children change |
| FileSystem.FileSystemAPI.UpdateParent | src/main/java/jbash/filesystem/FileSystemAPI.java:128-133 | The object leaves its old parent's children (first occurrence), is appended to the new parent's, gets the new parent, and only its own path is recomputed |
| FileSystem.FileSystemAPI.MoveFSO | src/main/java/jbash/filesystem/FileSystemAPI.java:61-71 | Succeeds exactly when the first path resolves and the second names a directory, then reparents; otherwise nothing changes |
| FileSystem.FileSystemAPI.MoveCurrentDirectory | src/main/java/jbash/filesystem/FileSystemAPI.java:135-140 | Succeeds exactly when the path names a directory, which becomes current; otherwise the current directory stays |
| FileSystem.FileSystemAPI.ResolveFromFacts | src/main/java/jbash/filesystem/FileSystemAPI.java:29-57 | The walk only reaches objects of the tree, and only directories when the path ends in "/" |
| FileSystem.FileSystemAPI.ResolveFacts | src/main/java/jbash/filesystem/FileSystemAPI.java:20 | A path resolves only to objects of the tree, and a path ending in "/" never to a file |
| FileSystem.FileSystemAPI.ResolveSlashes | src/main/java/jbash/filesystem/FileSystemAPI.java:18-22 | The empty path resolves to nothing and a non-empty path of slashes to the root |
| FileSystem.FileSystemAPI.ResolveRelative | src/main/java/jbash/filesystem/FileSystemAPI.java:24-28 | A path not starting with "." resolves from the root, as the same path with a leading "/" |
| FileSystem.FileSystemAPI.ResolveCurrent | src/main/java/jbash/filesystem/FileSystemAPI.java:24-25 | A path whose only component is "." names the current directory |
| FileSystem.FileSystemAPI.ResolveDot | src/main/java/jbash/filesystem/FileSystemAPI.java:24-25 | A path starting with "./" is walked from the current directory over the rest of its components |
| FileSystem.FileSystemAPI.ResolveUpFromRoot | src/main/java/jbash/filesystem/FileSystemAPI.java:34-36 | While the root is its own parent, "../p" names what p names, for every p whose first component is not "." |
| FileSystem.LeadingComponent | src/main/java/jbash/filesystem/FileSystemAPI.java:21 | A non-empty slash-free name followed by "/" becomes the first path component, the rest unchanged |
| FileSystem.FileSystemAPI.ResolveParentOfRoot | src/main/java/jbash/filesystem/FileSystemAPI.java:34-50 | ".." names the root while the root is its own parent, and "./.." the current directory's parent |
| FileSystem.FileSystemAPI.ResolveFromMissing | src/main/java/jbash/filesystem/FileSystemAPI.java:37-43 | A non-final component other than "." and ".." that names no child, or names a file, makes the walk fail |
| Environment.StringTable.Put | src/main/java/jbash/environment/JEnvironment.java:26 | HashMap.put binds the key to the value |
| Environment.Lookup | src/main/java/jbash/environment/JEnvironment.java:34-38 | get gives the bound value, or "" for an unbound name |
| Environment.LookupUpdate | src/main/java/jbash/environment/JEnvironment.java:25-38 | After set(v, x), v reads x and every other name reads as before |
| Environment.InitialBindings | src/main/java/jbash/environment/JEnvironment.java:11-18 | The initial tables: PS1 "$ ", PWD "/", HOME "/", and "?" "0" in JEnvironment but unset in JBashEnvironment |
| Environment.JEnvironment.constructor | src/main/java/jbash/environment/JEnvironment.java:11-18 | A new environment owns a fresh table with the initial bindings |
| Environment.JEnvironment.Set | src/main/java/jbash/environment/JEnvironment.java:25-27 | set binds v to x; every other name reads as before |
| Environment.JEnvironment.Get | src/main/java/jbash/environment/JEnvironment.java:34-38 | get is the bound value, or "" for an unbound name |
| Environment.JEnvironment.Clone | src/main/java/jbash/environment/JEnvironment.java:40-48 | clone is a new object sharing the same table, so it reads alike |
| Environment.JBashEnvironment.constructor | src/main/java/jbash/environment/JBashEnvironment.java:12-18 | The private constructor makes a fresh table without "?" |
| Environment.JBashEnvironmentStatics.GetInstance | src/main/java/jbash/environment/JBashEnvironment.java:20-23 | getInstance creates the instance once and returns that same object on every call |
| Environment.JBashEnvironmentStatics.Set | src/main/java/jbash/environment/JBashEnvironment.java:30-32 | set binds v to x in the instance's table |
| Environment.JBashEnvironmentStatics.Get | src/main/java/jbash/environment/JBashEnvironment.java:39-43 | get is the binding in the instance's table, or "" |
| Inode.ParsePerms | src/main/java/jbash/filesystem/Inode.java:46-53 | Succeeds exactly for nine characters, else the RuntimeException; each flag (owner, group, other, in r w x order) is set exactly when its character is not '-' |
| Inode.PermString | src/main/java/jbash/filesystem/Inode.java:43 | The rwx spelling of a record has nine characters |
| Inode.ParsePermString | src/main/java/jbash/filesystem/Inode.java:46-53 | Parsing the rwx spelling of a record gives the record back |
| Inode.OnlyDashesMatter | src/main/java/jbash/filesystem/Inode.java:48-52 | Only the positions of '-' matter: the letters are never checked |
| Inode.DefaultPerms | src/main/java/jbash/filesystem/Inode.java:26 | "rw-r--r--" gives owner read-write, group and other read only |
| Inode.GetFileType | src/main/java/jbash/filesystem/Inode.java:55-57 | 1 exactly for a file, 2 exactly for a directory |
| Process.Cleared | src/main/java/jbash/environment/JProcess.java:48 | Clearing a buffer keeps the set of descriptors |
| Process.Red | src/main/java/jbash/environment/JProcess.java:65 | The red wrapping keeps the text between the two escapes |
| Process.SendFrame | src/main/java/jbash/environment/JProcess.java:28-38 | send keeps the descriptors, touches only its own and standard error's buffers, and appends to a file only for a mapped descriptor above 2 |
| Process.FlushFrame | src/main/java/jbash/environment/JProcess.java:59-82 | fdFlush keeps the descriptors and touches only its own and standard error's buffers |
| Process.ErrorFrame | src/main/java/jbash/environment/JProcess.java:69-70 | The error path keeps the descriptors, touches only standard error and appends to no file |
| Process.ErrorOutput | src/main/java/jbash/environment/JProcess.java:69-75 | The error message reaches the screen in red after the pending standard-error text (followed by an empty red span when send already printed it), standard error ends empty, and no other buffer changes; without a standard-error buffer only the escapes print |
| Process.SendOutput | src/main/java/jbash/environment/JProcess.java:28-38 | send(1, msg) loses nothing: printed text then buffered text is the old buffer then msg, and at most 80 characters stay buffered |
| Process.SendError | src/main/java/jbash/environment/JProcess.java:28-38 | send(2, msg) prints the pending text in red once it passes 80 characters, and buffers it otherwise |
| Process.SendToFile | src/main/java/jbash/environment/JProcess.java:79 | send on a writable descriptor above 2 appends "Optional[text]" to the file once the text passes 80 characters and clears the buffer, else buffers it |
| Process.SendToReadOnly | src/main/java/jbash/environment/JProcess.java:73-76 | send on a descriptor not open for writing keeps all it was sent, and past 80 characters reports it as not writable |
| Process.NoSuchBufferSeven | src/main/java/jbash/environment/JProcess.java:69 | The message for descriptor 7 is "No such buffer associated with 7" and a newline |
| Process.FlushUnmapped | src/main/java/jbash/environment/JProcess.java:66-72 | fdFlush on any descriptor above 2 with no buffer prints "No such buffer associated with fd" in red after standard error's pending text (plus an empty red span when send already printed it), empties standard error, keeps every other buffer and writes no file; without a standard-error buffer only the escapes print |
| Process.FileBuffer.constructor | src/main/java/jbash/environment/FileBuffer.java:12-17 | A new buffer has the file and mode, offset 0 and empty text |
| Process.JProcess.constructor | src/main/java/jbash/environment/JProcess.java:21-23 | A new process has the environment and no descriptors |
| Process.JProcess.Consume | src/main/java/jbash/environment/JProcess.java:43-50 | consume returns the buffer's text and leaves it empty; an unmapped descriptor gives empty and changes nothing |
| Process.JProcess.Send | src/main/java/jbash/environment/JProcess.java:28-38 | send changes the buffers, the screen and the files as SendSpec says |
| Process.JProcess.FdFlush | src/main/java/jbash/environment/JProcess.java:59-82 | fdFlush changes the buffers, the screen and the files as FlushSpec says |
| Process.JProcess.FlushStandard | src/main/java/jbash/environment/JProcess.java:61-65 | Descriptor 0 is cleared silently, 1 printed and cleared, 2 printed in red and cleared |
| Process.JProcess.AppendToFile | src/main/java/jbash/environment/JProcess.java:79 | The file's contents become its old contents followed by the Optional text of consume, the buffer is cleared, and no other file changes |
| Process.JProcess.ReportError | src/main/java/jbash/environment/JProcess.java:69-70 | send(2, msg) then fdFlush(2), as ErrorSpec says, changing no file |

## Left out

- Tokens.TokenType: the kind Great is appended to the kinds of src/main/java/jbash/parser/TokenType.java:3-36, which does not declare it although JBashLexer.java:187 produces it; the older scanner under src/Parser shares this enumeration because its own (src/Parser/TokenType.java:3-10) lacks EOF and BrackExpr, which src/Parser/JBashParser.java:132 and :165 use.
- processQuotes body (src/main/java/jbash/parser/JBashLexer.java:253-301): its loop guard is never true, so the body is unreachable. Its inner loop would not terminate on `$` or a backquote. Only the guard is modelled.
- The StringBuilder overload of findFirstOf: strings and string builders are both `seq<char>` here, so the overload is the same function.
- The parallel streams in findFirstOf and parseCommand: they are modelled as sequential folds. This is sound here because concatenation is associative and the reduction's result does not depend on order.
- Redirection: no stage strips `>` targets, and the `Great` token's `>` ends up among the arguments, as in the code.
- The double-quote escape handling that the shell tests describe: it belongs to the unreachable quote-pass body.
- Disk persistence (TBFF, Disk), the Inode constructor and its getters: random-access file I/O with stubbed results.
- JKernel, JProcess.run and CommandFactory: they dispatch to command classes that are not part of this model.
- The FileBuffer constructor's file lookup: it calls `FileSystemAPI.getInstance().getFileSystemFile`, which FileSystemAPI.java does not define. The constructor therefore takes the file as a parameter.
- The command classes and the two console entry points: printing and read-eval-print loops.
- Screen output (System.out.print) is a ghost trace `console`, not I/O.
- Process.JProcess.Valid: assumes distinct descriptors have distinct FileBuffer objects and every buffer has a file. The model does not cover aliasing between descriptors, or the NullPointerException of a buffer whose file is null.
- JBashEnvironmentStatics.Set and JBashEnvironmentStatics.Get: require the receiver to be the singleton instance. The constructor is private, so every object a caller holds is the instance. The `synchronized` of getInstance is left out, since there is no concurrency here.
- Null map values: a HashMap value is never null here, so get's null test is "key not bound".
- FileSystem.FileSystemObject.File and FileWithContents: require a non-null directory parent. A File with a null parent would make itself its own parent through a cast that fails.
- FileSystem.FileSystemAPI.CreateFile, CreateFileWithContents and CreateDirectory: require a non-null parent argument to be an object of this tree. A directory from outside the tree is not modelled.
- FileSystem.FileSystemAPI.MoveFSO: no cycle check and no duplicate-name check, as in the code. Properties that depend on either are not claimed.
- Getters (getRoot, getChildren, getParent, getPath, getName): these are plain field reads in the model.
- The older scanner's char array is a `seq<char>`. Java's runtime crash on reading past it is a distinct outcome, `OutOfBounds`.
- Strings are modelled as Dafny strings, sequences of Unicode scalar values, while Java's `length`, `charAt`, `indexOf`, `substring`, `StringBuilder` and `char[]` count UTF-16 code units. Lengths, indices, token positions, `OutOfBounds` indices, the nine-character test of parsePerms and the 80-character flush threshold of send therefore agree with Java only for text inside the Basic Multilingual Plane.
- JBashLexer.IsTarget: it is a closed form of `Arrays.toString(targets).indexOf(c) != -1`. JBashLexer.IsTargetText proves the two equal.
- The dead `default` branch of the double-quote switch and the IllegalStateException it throws: unreachable for the same reason as the rest of the quote pass.
