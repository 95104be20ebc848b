# Password security tool — Dafny model

This project models the deterministic core of `password_checker.py`, a
command-line tool that rates a password's strength and asks the Have I Been
Pwned "Pwned Passwords" service whether the password has been seen in a
breach. Four modules:

- `PasswordStrength` (`password_strength.dfy`) models `calcular_forca_senha`.
  Five criteria are checked in a fixed order: at least 8 characters, an
  upper-case letter, a lower-case letter, a digit, a character from
  `!@#$%^&*(),.?":{}|<>`. Each criterion met adds one point. Each one missed
  adds an advisory to the feedback list. Twelve characters or more add a
  bonus point and a closing "long password" note. The score is classified
  FORTE (`Strong`) at 5 or more, MÉDIA (`Medium`) at 3–4 and FRACA (`Weak`)
  below 3. The source's loop over the criteria dictionary is the method
  `AssessStrength`. It is proved equal to the function `StrengthOf`, and
  the lemmas state the source's promises about that function.
- `PwnedRange` (`pwned_range.dfy`) models the local part of
  `verificar_senha_pwned`: the k-anonymity range lookup. The 40-character
  upper-case SHA-1 digest is split into a 5-character prefix, which goes
  into the request URL, and the remaining suffix. The `SUFFIX:COUNT` lines of
  the response are scanned in order, and the first line that matches the
  suffix or cannot be unpacked decides the result. The digest and the HTTP
  request are inputs. The request is a function from URL to outcome (a
  status and a body, or a failed request), and `CheckPwned` hands it only
  the range URL. The loop is the method `CheckPwned`. It is proved equal
  to the function `RangeCheck` applied to the outcome for that URL.
- `PythonText` (`python_text.dfy`) gives the Python built-ins that the scan
  depends on: `str.splitlines()`, `str.split(':')` and `int()`. Each comes
  with a round-trip lemma.
- `Session` (`session.dfy`) models the interactive loop of `main`. An
  entered line is an exit request when its lower-case form is `sair`, is
  answered with a reminder when it is empty, and is analysed otherwise.
  Ctrl+C restarts the prompt. The operator's input is a sequence of events.

Three consequences of the code are worth stating plainly:

- A string of seven lower-case letters meets only the has-lower criterion.
  The length criterion needs 8 characters, so the string scores 1 and is
  FRACA (`SevenLowercaseWeak`).
- `int(count)` runs only on the line whose suffix matches. A line that
  unpacks into two fields but has a non-numeric count is never parsed when
  its suffix differs, so it is not an error. Only a line that does not
  unpack into exactly two fields is an error before a match.
- `"".split(':')` is `['']`, a single field. So an empty line in the
  response body is an unpack error.

A password of twelve or more characters with upper and lower case and a
digit but no special character is rated FORTE (`LongWithoutSpecialStrong`).
That is what the code computes: the length bonus makes up for the missing
special character. Nothing in the source records whether this was
intended.

## Model

| member | source | states |
|---|---|---|
| PasswordStrength.AssessStrength | password_checker.py:22-71 | the loop that adds a point per criterion met and an advisory per criterion missed, followed by the length bonus and the classification, returns exactly `StrengthOf(password)` |
| PasswordStrength.StrengthOf | password_checker.py:24-70 | the score is always between 0 and 6, and criteria met ≤ total criteria = 5 |
| PasswordStrength.MetPreservedByInsertion | password_checker.py:29-33 | each criterion is a property a password keeps when characters are inserted anywhere in it: a criterion met by `before + after` is met by `before + extra + after` |
| PasswordStrength.ScoreMonotoneUnderInsertion | password_checker.py:28-63 | inserting characters anywhere never lowers the score or the level |
| PasswordStrength.Advisories | password_checker.py:37-50 | among the first n criteria there are at most n advisories, and each one names a criterion the password misses |
| PasswordStrength.MetCount | password_checker.py:69 | the number of criteria met among the first n is at most n |
| PasswordStrength.Classify | password_checker.py:57-63 | FORTE iff score ≥ 5, MÉDIA iff 3 ≤ score < 5, FRACA iff score < 3 |
| PasswordStrength.ClassifyMonotone | password_checker.py:57-63 | a higher score never gets a lower level |
| PasswordStrength.ScoreIsCriteriaPlusBonus | password_checker.py:37-54 | score = criteria met + (1 if length ≥ 12 else 0), and criteria met = the size of the set of criteria the password meets |
| PasswordStrength.AdvisoriesCount | password_checker.py:37-50 | there are exactly as many advisories as criteria missed |
| PasswordStrength.AdvisoriesMembership | password_checker.py:37-50 | the advisory for a criterion is present iff that criterion was checked and missed |
| PasswordStrength.AdvisoriesOrdered | password_checker.py:28-50 | advisories follow the criteria's evaluation order, with no repeats |
| PasswordStrength.FeedbackCharacterised | password_checker.py:28-55 | the feedback holds an advisory for exactly the criteria missed and the long note iff length ≥ 12, in strict order min_length, has_upper, has_lower, has_digit, has_special, note; its length = 5 − met + bonus |
| PasswordStrength.AllCriteriaStrong | password_checker.py:28-63 | meeting all five criteria is always FORTE |
| PasswordStrength.LongWithoutSpecialStrong | password_checker.py:28-63 | 12+ characters with upper, lower and a digit scores at least 5 and is FORTE even without a special character |
| PasswordStrength.LowercaseOnlyCriteria | password_checker.py:29-33 | a non-empty all-lower-case string meets has_lower and no other character criterion |
| PasswordStrength.SevenLowercaseWeak | password_checker.py:28-63 | seven lower-case letters score 1 and are FRACA |
| PasswordStrength.TwelveLowercaseMedium | password_checker.py:28-63 | "abcdefghijkl" scores 3, is MÉDIA, and gets the upper, digit and special advisories followed by the long note |
| PasswordStrength.ReferencePasswordStrong | password_checker.py:28-63 | "Password1!" scores 5 with no bonus, is FORTE, and gets no feedback |
| PasswordStrength.EmptyPasswordWeak | password_checker.py:28-63 | the empty string scores 0, gets all five advisories in order, and is FRACA |
| PwnedRange.CheckPwned | password_checker.py:82-102 | requests the range URL of the digest and no other, then the status check and the line scan with early return compute exactly `RangeCheck` of the outcome for that URL |
| PwnedRange.RangeCheck | password_checker.py:85-105 | a failed request gives the request error and nothing else does; the fixed API error comes exactly for a status other than 200; a checked result carries the digest, and "not breached" always has count 0 |
| PwnedRange.ReadRecord | password_checker.py:88-89 | a matching line is exactly the suffix, one ':' and a count without ':'; a line that does not unpack has at least one field and not two |
| PwnedRange.Decide | password_checker.py:89-105 | a line that decides the lookup never gives "not breached" or the API error; a breached result carries the digest and the value `int()` reads from the matching line's count |
| PwnedRange.ScanLines | password_checker.py:87-100 | the scan never yields the API-failure result or a request error, and a checked result always carries the digest |
| PwnedRange.Prefix | password_checker.py:78 | `hash_senha[:5]` is a prefix of the digest of at most 5 characters, and exactly 5 when the digest has 5 or more |
| PwnedRange.Suffix | password_checker.py:79 | `hash_senha[5:]` is what follows the prefix: prefix ++ suffix = digest |
| PwnedRange.RangeUrl | password_checker.py:82 | the URL is the range endpoint followed by at most 5 characters, all taken from the start of the digest |
| PwnedRange.DigestSplit | password_checker.py:77-79 | a 40-character digest splits 5 + 35 |
| PwnedRange.RangeUrlRevealsOnlyPrefix | password_checker.py:78-83 | two digests give the same request URL iff their prefixes agree; the URL is all `CheckPwned` passes to the service, so only the prefix leaves the machine |
| PwnedRange.NonOkStatusIsApiFailure | password_checker.py:85-102 | any status other than 200 gives the fixed API error, whatever the body |
| PwnedRange.ScanDecidedByFirstNonMismatch | password_checker.py:87-94 | the first line that matches or fails to unpack decides the result; with no such line the result is "not breached, 0" |
| PwnedRange.ScanNotFoundIff | password_checker.py:87-100 | "not breached, 0" iff every line unpacks into two fields and none has the suffix |
| PwnedRange.MalformedLineIsError | password_checker.py:87-105 | a line that does not split into two fields, reached before a match, gives an error result carrying the field count |
| PwnedRange.ReadFormattedRecord | password_checker.py:88-89 | a `SUFFIX:COUNT` line reads back as a match with its count text iff its suffix is the one sought |
| PwnedRange.ResponseLines | password_checker.py:87 | `splitlines` of a formatted response body gives back its record lines, with or without a line break after the last record |
| PwnedRange.ResponseListingSuffixIsBreached | password_checker.py:82-94 | a 200 response (LF or CRLF, last line terminated or not) listing the suffix reports breached, with the count of the first record that has the suffix, and carries the digest |
| PwnedRange.ResponseWithoutSuffixIsClean | password_checker.py:85-100 | a 200 response (LF or CRLF, last line terminated or not) not listing the suffix reports not breached, with count 0 |
| PwnedRange.PasswordDigestSplit | password_checker.py:77-79 | the digest of "password" is queried with prefix 5BAA6 and searched for its 35-character remainder |
| PwnedRange.PasswordDigestLookup | password_checker.py:77-94 | a CRLF response with no final line break that lists the suffix of "password" second gives breached with its count |
| PythonText.SplitLines | password_checker.py:87 | no line produced by `splitlines` contains a line boundary |
| PythonText.SplitLinesJoinLines | password_checker.py:87 | `splitlines` of lines each ended by LF or CRLF gives back the lines |
| PythonText.SplitLinesJoinLinesOpen | password_checker.py:87 | `splitlines` of lines separated by LF or CRLF, with no break after the last (non-empty) line, gives back the lines |
| PythonText.Split | password_checker.py:88 | `split(':')` yields at least one field, and no field contains the separator |
| PythonText.JoinSplit | password_checker.py:88 | joining the fields with ':' restores the line |
| PythonText.SplitJoin | password_checker.py:88 | splitting a ':'-join of separator-free fields gives back those fields |
| PythonText.ParseInt | password_checker.py:92 | `int()` succeeds only on a string that contains a decimal digit, and a negative result needs a '-' in the string |
| PythonText.UnitSeparatorNotStripped | password_checker.py:92 | `int()` does not strip U+001F, so the count "\x1f5" is rejected |
| PythonText.ParseIntOfDigits | password_checker.py:92 | `int()` of a run of decimal digits is its decimal value |
| PythonText.ParseIntOfNegatedDigits | password_checker.py:92 | `int()` of a minus sign followed by digits is the negated value |
| PythonText.ParseIntToString | password_checker.py:92 | `int(str(x)) == x` for every integer |
| Session.ClassifyEntry | password_checker.py:165-170 | the reminder is given iff the line is empty; an exit request has four characters; an analysed line is non-empty and does not lower-case to "sair" |
| Session.RunSession | password_checker.py:162-173 | at most one reaction per event, and a clean exit iff some event is an exit request |
| Session.ExitIffSairIgnoringCase | password_checker.py:165-166 | a line is an exit request iff it is s-a-i-r in any mix of letter case |
| Session.InteractiveLoop | password_checker.py:162-173 | the prompt loop over the input events produces exactly `RunSession(events)` |
| Session.RunSessionCharacterised | password_checker.py:162-173 | each event before the first exit request gets one reaction (restart, reminder or analysis); the loop stops there and reads nothing after it; it exits iff such a request exists |
| Session.AnalysedAreEnteredLines | password_checker.py:165-170 | every analysed password is an entered, non-empty line that is not an exit request |
| Session.EmptyThenExit | password_checker.py:162-170 | the input "" then "sair" gives one reminder, no analysis, and a clean exit |

## Left out

- SHA-1 (`hashlib.sha1`, line 77) is a library call. The digest is an input to `CheckPwned` and `RangeCheck`. Any failure of `senha.encode('utf-8')` inside the `try` is not modelled.
- The HTTP GET (`requests.get`, line 83) and its 10-second timeout are network I/O. The request is a parameter of `CheckPwned`, a function from URL to outcome: a status and a body, or `RequestFailed` for an exception raised by the client. `RangeCheck` takes the outcome itself. Decoding the response bytes into `response.text` is not modelled.
- The text of `str(e)` (line 105) depends on the Python runtime. The error result carries the kind of fault instead: request failure, unpack field count, or the rejected count text.
- Printing is output only and is not modelled: `banner`, the whole report in `analisar_senha` (including the thousands separator), and the prompt and notice texts. The advisory and note strings are identified by their criterion. `analisar_senha` only composes the two checks and prints, so it has no member here.
- `argparse`, the `--senha` one-shot mode and the `--arquivo` stub (lines 146-156) are command-line plumbing. The stub does nothing.
- PasswordStrength.StrengthOf: `isupper`, `islower` and `isdigit` are modelled on ASCII only. Non-ASCII letters and digits, which Python also counts, are not covered.
- Session.ExitIffSairIgnoringCase: `str.lower()` is modelled on ASCII letters only. No non-ASCII character lower-cases to part of "sair" as a single character, so the exit decision is not affected.
- PythonText.ParseIntToString: `int()` is modelled for ASCII digits, signs, underscores between digits, and the ASCII whitespace it strips (space and `\t` through `\r`). Non-ASCII digits and non-ASCII Unicode whitespace, which Python also accepts, are not modelled.
- PythonText.ParseInt: the limit on the number of digits that CPython 3.11 and later (and its security backports) enforce in conversions between `int` and `str` (4300 by default, configurable at run time) is not modelled. There `int(count)` on a longer count raises `ValueError`, and the lookup returns its error result, while the model reads the value. For the same reason `ParseIntToString` states `int(str(x)) == x` for every integer, although such an interpreter raises in `str(x)` itself beyond the limit.
- Session.InteractiveLoop: running out of input ends the model with `exited == false`. In Python, `input()` would raise an uncaught `EOFError` there. A Ctrl+C that arrives while a password is being analysed is treated like one that arrives at the prompt.
