# codelines / xlines core, modelled in Dafny

`codelines` counts the lines of the source files under a directory and prints
a report. This project models the list processing at its centre. Files are
collected from a directory walk, skipping `.git` directories, and duplicates
are removed. Any path that contains a token of the exclusion list is dropped.
Lines are counted with or without blank lines, and the column arithmetic of
the report header and footer is modelled. It also models `xlines`'
editing of the persisted exclusion list, which works one token per line:

- the menu letter dispatch;
- the numbered listing;
- adding comma-separated extensions;
- removing an entry by its number, with the re-prompting loop;
- the acknowledgment printed after a removal.

The modules:

- `Seqs` (`seqs.dfy`): Python's `filter`, `list.pop(i)`, subsequences,
  duplicate-free lists, first occurrences.
- `PyStrings` (`pystrings.dfy`): the `str` operations the code relies on:
  `isspace` and `strip`, the `in` operator on strings, `split`, `str(n)`,
  `int(s)`, `'\t'.expandtabs(n)`, and `s * n`. `int(s)` skips the
  whitespace `strip` removes, except the ASCII information separators
  U+001C..U+001F, which it refuses.
- `TextFiles` (`textfiles.dfy`): a file as `Absent`, `Unreadable` or
  `Present(text)`. A read does universal-newline translation, `readlines()`
  splits the text, and a list comprehension strips each line.
- `Common` (`common.dfy`): `linecount`, `ExcludedTypes`, `remove_duplicates`,
  `remove_illegal`, `locate_fileobjects` and the widths of
  `print_header`/`print_footer`.
- `Configure` (`configure.dfy`): `condition_map`, `display_exclusions`,
  `_configure_add`, `_configure_rewrite` and `_configure_remove`, together
  with the write/read round trip of the exclusion file.

The file system and the terminal become parameters:

- `os.path.isfile(origin)` is a boolean;
- `os.walk(origin)` is a sequence of `(root, files)` entries;
- `os.path.abspath(os.path.join(root, file))` is a function value `fullPath`;
- `COUNT_COLUMN_WIDTH` is an integer;
- what a read of the exclusion file finds is a `FileState`, and whether it can
  be opened for writing is a boolean;
- the answers typed at the prompts are an optional string (none when input
  has ended) or a sequence of strings.

An exception that escapes an editing function is an `Outcome`, and so is
`sys.exit`.

Where the code behaves differently from what its prompts and docstrings
suggest (the "[none]" default of the removal prompt, the `True`/`False`
results the docstrings announce), the model follows the code:

- An empty answer to "Pick a number to remove" raises `ValueError`. It does
  not cancel the removal, because `int(answer)` is evaluated before
  `not answer`.
- The `not answer` branch after the prompt loop is therefore dead.
- A blank line in the exclusion file yields the token `""`, which excludes
  every path.
- The `.git` test is a substring test on the walk root, so it also skips
  `.github`.
- `display_exclusions` on a missing file raises `UnboundLocalError`. It does
  not report an `OSError`.
- Letter `d` of `condition_map` returns `sys.exit` without calling it.
- The acknowledgment after a removal compares the decimal string of the
  0-based index with the remaining tokens. It can report a successful removal
  as failed, and it can raise `IndexError`.
- After a removal, reading the list back gives the list without the removed
  position. The removed token is gone from it only when the list held no
  duplicates, because `pop` removes one occurrence.

## Model

| member | source | states |
|---|---|---|
| Common.LineCount | codelines/common.py:58-61 | the count is never more than the number of lines read |
| Common.LineCountBlankLines | codelines/common.py:58-61 | counting with whitespace gives the number of lines; counting without drops exactly the lines equal to "\n", so lines of spaces or tabs still count |
| Common.EmptyFileCountsNothing | codelines/common.py:58-61 | an empty file counts 0 lines in both modes |
| TextFiles.TranslateNewlines | codelines/common.py:60 | reading a file in text mode leaves no "\r"; the text never grows |
| TextFiles.TranslateWithoutCarriageReturn | xlines/configure.py:126 | text without "\r" reads back unchanged |
| TextFiles.TranslateConcat | codelines/common.py:60 | translation distributes over a concatenation unless the cut falls between the "\r" and "\n" of a pair |
| TextFiles.TranslateAppendLineBreak | codelines/common.py:60 | a "\r\n" at the end of the text reads as one "\n" |
| TextFiles.TranslateAppendCarriageReturn | codelines/common.py:60 | a lone "\r" at the end of the text reads as "\n" |
| TextFiles.TranslateAppendOther | codelines/common.py:60 | any character other than "\r" and "\n" is read as it is |
| TextFiles.TranslateAppendNewline | codelines/common.py:60 | a "\n" that does not follow a "\r" is read as it is |
| TextFiles.TranslateAppendNewlineAfterReturn | codelines/common.py:60 | a "\n" right after a "\r" adds nothing to what is read |
| TextFiles.SplitLines | codelines/common.py:60 | `readlines` pieces laid end to end give the text back; each piece is non-empty, holds "\n" only at its end, and ends with "\n" unless it is the last |
| TextFiles.ReadLines | codelines/common.py:60 | the lines of a read concatenate to the translated text, are lines in the above sense and hold no "\r" |
| TextFiles.StrippedLines | codelines/common.py:81 | one token per line read, each the stripped line |
| TextFiles.StrippedLineStorable | codelines/common.py:81 | a stripped line has no line break and no whitespace at either end |
| TextFiles.StrippedLinesStorable | xlines/configure.py:191 | every token read from the exclusion file is storable |
| PyStrings.Strip | codelines/common.py:81 | `strip()` returns the slice of the input that starts at its first non-whitespace character and ends after its last one: no whitespace at either end of the result, only whitespace outside it |
| PyStrings.StripPadded | codelines/common.py:81 | stripping a trimmed string with whitespace on both sides gives that string back |
| PyStrings.StripTrimmed | codelines/common.py:81 | stripping an already stripped string changes nothing |
| PyStrings.StripTrailingSpace | xlines/configure.py:191 | stripping a trimmed token followed by a whitespace character gives the token back |
| PyStrings.IsSubstring | codelines/common.py:72 | `t in s` holds exactly when `t` occurs at some position of `s` |
| PyStrings.SubstringTransitive | codelines/common.py:175 | whatever contains `u` contains every substring of `u` |
| PyStrings.Split | xlines/configure.py:134 | `split(',')` gives one more piece than there are commas, no piece holds a comma, and joining the pieces gives the response back |
| PyStrings.NatToString | xlines/configure.py:221 | `str(n)` is non-empty, all decimal digits, with a leading "0" only for 0 |
| PyStrings.ParseInt | xlines/configure.py:195 | `int(s)` succeeds only on a string holding a digit |
| PyStrings.ParseTrimmed | xlines/configure.py:195 | the text inside the whitespace is read only when it ends with a digit |
| PyStrings.ParseSigned | xlines/configure.py:195 | `int()` reads `str(n)` with or without a leading "-" as `n` or `-n` |
| PyStrings.ParseIntPadded | xlines/configure.py:195 | `int()` reads `str(n)`, optionally signed "-", between any whitespace it skips, as `n` or `-n` |
| PyStrings.TrimmedRefuses | xlines/configure.py:195 | a character that is no digit, underscore or sign inside the whitespace makes `int()` fail |
| PyStrings.ParseIntRefuses | xlines/configure.py:195 | `int(s)` fails when `s` holds a character that is no digit, underscore, sign or whitespace `int()` skips (the ASCII information separators U+001C..U+001F included) |
| PyStrings.ParseNatToString | xlines/configure.py:209 | `int(str(n)) == n` |
| PyStrings.ExpandTab | codelines/common.py:90 | `'\t'.expandtabs(n)` is `max(0, n)` spaces |
| PyStrings.Repeat | codelines/common.py:92 | `s * n` has `max(0, n) * len(s)` characters, all taken from `s` |
| Seqs.Filter | codelines/common.py:140 | `filter` keeps exactly the elements satisfying the test, never more elements than the input |
| Seqs.FilterCounts | codelines/common.py:140 | `filter` keeps every copy of a value the test accepts and none of a value it rejects |
| Seqs.FilterIsSubsequence | codelines/common.py:140 | what `filter` keeps is a subsequence of its input |
| Seqs.RemoveAt | xlines/configure.py:212 | `pop(i)` shortens the list by one, keeps the elements before `i` in place, shifts those after it down by one, and removes exactly one occurrence of the popped element |
| Common.EmptyTokenExcludesAll | codelines/common.py:70-74 | an empty token excludes every path |
| Common.ParseExclusions | codelines/common.py:76-83 | one stripped token per line of a readable file; no tokens when opening fails |
| Common.BlankLineExcludesAll | codelines/common.py:76-83 | a blank line in the exclusion file makes the loaded types exclude every path |
| Common.TokenList.constructor | codelines/common.py:65 | the list object passed as `ex_container` holds the given items |
| Common.ExcludedTypes.constructor | codelines/common.py:64-68 | the object keeps the caller's list itself; a non-empty list is left unchanged, an empty one receives the parsed exclusions |
| Common.ExcludedTypes.Excluded | codelines/common.py:70-74 | `excluded(path)` is true exactly when some stored token is a substring of `path` |
| Common.Dedup | codelines/common.py:122-129 | the result has no repeated element, holds only input elements and holds every input element |
| Common.RemoveDuplicates | codelines/common.py:109-129 | the loop's `uniq` is the first-occurrence deduplication of the input |
| Common.DedupIsSubsequence | codelines/common.py:124-129 | the result is a subsequence of the input, never longer |
| Common.DedupFirstOccurrenceOrder | codelines/common.py:124-129 | kept elements appear in the order of their first occurrences in the input |
| Common.DedupOfDistinct | codelines/common.py:124-129 | a duplicate-free list is returned unchanged |
| Common.DedupIdempotent | codelines/common.py:109-129 | removing duplicates twice equals removing them once |
| Common.Survivors | codelines/common.py:132-140 | a path survives exactly when it is in the input and no token is a substring of it; every copy of a surviving path is kept and every copy of an excluded one dropped; survivors are a subsequence of the input |
| Common.SurvivorsWhenNothingMatches | codelines/common.py:132-140 | when no token matches any path, the list is returned unchanged |
| Common.SurvivorsOfEmptyToken | codelines/common.py:136-139 | an empty token removes every path |
| Common.FilterIsSurvivors | codelines/common.py:140 | filtering by the negated exclusion test gives the survivors, so `remove_illegal(d, types)` is `d` filtered by `not excluded` |
| Common.RemoveIllegal | codelines/common.py:132-140 | the nested loops and the final `filter` return the survivors |
| Common.FullPaths | codelines/common.py:178 | one full path per file, in file order |
| Common.AppendFullPaths | codelines/common.py:175-181 | the inner loop appends the full paths of one entry's files to the collected list, in order |
| Common.LocateFileObjects | codelines/common.py:169-189 | a file origin gives exactly `[origin]`; a directory origin gives the deduplicated paths the walk collects outside `.git` roots |
| Common.Contribution | codelines/common.py:175-181 | a walk entry whose root contains `.git` contributes nothing; any other contributes one full path per file, in file order |
| Common.Collected | codelines/common.py:174-181 | a walk whose every root contains `.git` collects nothing |
| Common.ContributionMembers | codelines/common.py:175 | one walk entry contributes exactly the paths it discovers (none under a root containing `.git`) |
| Common.CollectedMembers | codelines/common.py:174-181 | a path is collected exactly when some walk entry outside `.git` roots has a file resolving to it |
| Common.LocatedPaths | codelines/common.py:174-189 | the result for a directory holds no path twice and holds exactly the discovered paths |
| Common.GitSubstringSkipsGithub | codelines/common.py:175 | a walk root containing `.github` contributes nothing |
| Common.Rule | codelines/common.py:92 | the rule line is the four-space indent followed by `max(0, total_width)` dashes |
| Common.Header | codelines/common.py:86-94 | rule, titles, rule; the titles row is the indent, "object", `max(0, total_width - 16)` spaces and "line count", so it is `4 + max(16, total_width)` wide and as wide as the rules when `total_width >= 16` |
| Common.Footer | codelines/common.py:97-106 | a rule then the total row: the indent, the label, `max(0, total_width - len(msg) - len(str(total)) - 1)` spaces and `str(total)`, so when the gap is positive the row is one column narrower than the rule |
| Configure.ConditionMap | xlines/configure.py:62-68 | "a", "b", "d" select add, remove and the uncalled `sys.exit`; every letter outside "a".."d" selects the no-op |
| Configure.Numbered | xlines/configure.py:50-51 | the listing numbers the tokens 1.. in file order |
| Configure.DisplayExclusions | xlines/configure.py:32-59 | the listing crashes exactly on a missing file and warns exactly on an unreadable one |
| Configure.DisplayedEntries | xlines/configure.py:32-59 | the listing crashes exactly on a missing file, warns exactly on an unreadable one, and otherwise shows each read token with its 1-based number |
| Configure.RemovesNumberedEntry | xlines/configure.py:209-212 | popping position `n - 1` removes exactly the entry the listing numbered `n` and keeps every other entry in order |
| Configure.Dotted | xlines/configure.py:137 | every added token starts with "."; a piece already starting with "." is kept verbatim, any other gets "." in front |
| Configure.DottedAll | xlines/configure.py:137 | one normalised token per piece, in order |
| Configure.Extended | xlines/configure.py:134-137 | the list grows by exactly the number of comma-separated pieces, keeps the existing tokens as its prefix, and appends the normalised pieces in response order |
| Configure.ExtendedStaysDotted | xlines/configure.py:137 | a list of dotted tokens stays dotted after an addition |
| Configure.Serialize | xlines/configure.py:141 | the text written for a list is empty exactly when the list is, ends with "\n" otherwise, and holds one "\n" per token when no token holds one |
| Configure.SplitSerialized | xlines/configure.py:164 | `readlines` on the written file gives one line per token, the token followed by "\n" |
| Configure.ReadBack | xlines/configure.py:164 | writing tokens without line breaks or edge whitespace and reading them back with `strip()` gives the same list |
| Configure.RewriteIsStable | xlines/configure.py:190-191 | a list read from the file is written back exactly |
| Configure.RemoveThenReload | xlines/configure.py:209-214 | after a removal is written, reading the file gives the list without the removed position; without duplicates the removed token is gone |
| Configure.AddThenReload | xlines/configure.py:137-141 | after an addition of storable pieces is written, reading the file gives the extended list |
| Configure.ParseAll | xlines/configure.py:195 | what `int()` makes of each answer, one result per answer |
| Configure.PickFrom | xlines/configure.py:193-202 | an accepted number lies in `1..len(f2)`; the loop stops after at least one answer and within the answers given |
| Configure.PromptForNumber | xlines/configure.py:193-202 | the prompt loop ends as `PickFrom` describes |
| Configure.SkippedAnswer | xlines/configure.py:197-202 | every answer the loop passes over was an integer outside `1..len(f2)` |
| Configure.PickedAnswer | xlines/configure.py:195-196 | an accepted answer parses to its number, which lies in `1..len(f2)`, and every earlier answer was an out-of-range integer |
| Configure.RejectedAnswer | xlines/configure.py:195 | the loop stops early only at an answer `int()` refuses, after out-of-range integers only |
| Configure.ExhaustedAnswers | xlines/configure.py:193-202 | input runs out only when every answer was an out-of-range integer |
| Configure.TypedNumberPicks | xlines/configure.py:193-202 | typing the decimal number of an entry picks that entry with the first answer |
| Configure.EmptyAnswerRaises | xlines/configure.py:195 | an empty first answer ends the loop with `ValueError` |
| Configure.AcceptedAnswerNotEmpty | xlines/configure.py:204-206 | an accepted answer is never empty, so the `not answer` branch is dead |
| Configure.Acknowledge | xlines/configure.py:221-232 | success is reported exactly when `str(index)` is not a remaining token; a failure is reported exactly when it is one and the index is in range, showing the remaining token at that index; `IndexError` arises exactly when it is one and the index is out of range |
| Configure.DottedListsAcknowledged | xlines/configure.py:221 | when every remaining token starts with ".", success is always reported |
| Configure.AcknowledgmentMisreports | xlines/configure.py:221-225 | removing entry 1 of `["x", "0"]` is reported as a failure |
| Configure.AcknowledgmentCanRaise | xlines/configure.py:223 | removing entry 2 of `["1", ".py"]` makes the failure message index out of range |
| Configure.ExclusionFile.constructor | xlines/configure.py:112-150 | the file at `expath` starts in the given state and with the given writability |
| Configure.ExclusionFile.Rewrite | xlines/configure.py:153-172 | a writable file is overwritten with one token per line and `True` returned; otherwise `False` and the file is unchanged |
| Configure.ExclusionFile.Add | xlines/configure.py:112-150 | a missing file raises `UnboundLocalError`, an unreadable one returns `False`, the end of input raises `EOFError` and an empty response exits, both leaving the file unchanged, and otherwise the extended list is written and `True` returned, or `False` when the file cannot be written |
| Configure.ExclusionFile.Remove | xlines/configure.py:175-237 | a missing file raises, an unreadable one returns `False`; a refused answer raises `ValueError` and running out of input raises `EOFError`, both with the file unchanged; no acknowledgment is produced on any path that does not write the shortened list; an accepted number `n` writes the list without position `n - 1` and returns the acknowledgment, raising `IndexError` when it does |
| Configure.ExclusionFile.RemoveEntry | xlines/configure.py:209-232 | after a valid number, the list without that position is written and acknowledged, or `False` is returned with the file unchanged when it cannot be written |

## Left out

- `setup.py` is not part of this model. It only installs the tool.
- The file system is reduced to parameters. `os.walk`, `os.path.isfile` and
  `os.path.abspath(os.path.join(...))` are given values, and a file is a
  `FileState`.
- Common.LocateFileObjects: the `except OSError` around the path join is left
  out, since the function value `fullPath` cannot fail.
- Common.LineCount: takes the lines `readlines()` returned. The `OSError` or
  decoding error that opening a missing or binary file raises propagates to
  the caller and is not modelled.
- Common.Rule: counts visible columns. In the source each dash carries colour
  codes.
- Common.Footer: computes the gap from `str(object_count)` and `str(total)`
  as the source does, and shows the row with those plain strings. The source
  then redefines the label with the object count formatted with thousands
  separators and colour codes, and prints the total colourised, with
  thousands separators and right-aligned to six characters. The printed row
  is therefore longer once a count reaches 1000. The `'\n'` appended to
  the total row, which prints a blank line after it, is left out as well.
- Configure.Numbered: numbers only. The `{:>3}` alignment and colour of the
  printed listing are left out.
- PyStrings.ParseInt: accepts ASCII decimal digits only. Python's `int()`
  also accepts other Unicode decimal digits.
- PyStrings.ParseInt: accepts literals of any length. Since Python 3.11,
  `int()` raises `ValueError` on a decimal string of more than 4300 digits.
- Configure.ExclusionFile.Rewrite: a write error part-way through the file is
  not modelled. The file is either written whole or not opened.
- Configure.ExclusionFile.Rewrite: the new state holds the text with "\n"
  line ends, as written on POSIX systems. On Windows a text-mode write turns
  each "\n" into "\r\n". Reading back translates that to "\n" again, so the
  read-back lemmas hold there too, but the written text differs.
- Common.ParseExclusions: a file that is not valid in the locale's encoding
  makes the read raise `UnicodeDecodeError`. That is a `ValueError`, so the
  `except OSError` does not catch it. `FileState` has no case for such a file.
- Configure.DisplayExclusions: the same `UnicodeDecodeError` escapes its
  `except OSError` and is not modelled.
- Configure.ExclusionFile.Add: the same `UnicodeDecodeError` escapes its
  `except OSError` and is not modelled.
- Configure.ExclusionFile.Remove: the same `UnicodeDecodeError` escapes its
  `except OSError` and is not modelled.
- Configure.ConditionMap: returns which handler runs. Running it is modelled
  by `ExclusionFile.Add` and `ExclusionFile.Remove`. The `_configure_hicount`
  stub only prints, and is represented by its handler value alone.
- The prompts, `main_menupage`, screen clearing, `stdout_message`, colours and
  logging are left out. They are terminal work.
- The exit-code tables and `sys.exit` become the `ExitedOk` outcome.
- Module-level state is passed in as parameters instead. This covers the
  shared `container`, the `local_config` lookups and the default `expath`.
- Python's mutable default `ex_container=[]` is shared between calls. The
  model shows this only through `TokenList`: the constructor keeps the
  caller's list object and fills it in place.
- The aggregation of counts into a report total is not part of this model.
  Its code is not in `codelines/common.py` or `xlines/configure.py`.
