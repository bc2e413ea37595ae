# Résumé parser: a verified model of the field extractor

This project models the core of `ResumeParserChallengeNK.py`, a script that
reads a PDF résumé and returns a record of ten fields. Each field is a
`(value, confidence)` pair, with confidence 1 when a matcher found the value
and 0 otherwise. The model covers four parts of the script:

- `extract_text` (choose the embedded text or OCR).
- `extract_skills`.
- `extract_resume_data`: the seeded dictionary, the nine matchers and the
  post-pass that turns every falsy entry into `(None, 0)`.
- `parse_resume`: the loop that reshapes each pair into
  `{"value": …, "confidence": …}`.

Modules, one per part of the program:

- `Text`: Python's character classes, `str.strip`, `lstrip` and `rstrip`,
  `str.split` and `str.join`, plus the leftmost-position search that
  `re.search` performs.
- `Patterns`: the e-mail pattern `[\w\.-]+@[\w\.-]+`, the phone pattern
  `\b\d{10}\b`, and the LinkedIn and GitHub URL patterns. Each is an explicit
  scan, proved equal to a declarative description of the leftmost match.
- `SkillMatcher`: `extract_skills` as a loop over the 21-word vocabulary,
  with the duplicates dropped.
- `EducationMatcher`: `re.findall` of
  `(.+?),\s*(.+?),\s*(\d{4})\s*[â€“-]\s*(\d{4})`. It follows the order in
  which the regular-expression engine backtracks: lazy groups grow one
  character at a time, greedy whitespace runs give back one character at a
  time, and the first success wins.
- `SectionMatcher`: the certifications section (`re.S | re.I`, stopping at
  `Projects`, `Skills` or `$`), and the projects section split with
  `re.split(r'\n(?=[A-Z][^\n]{3,100}:)', …)` into title and description
  entries.
- `Record`: the dictionary as a `map<Key, Scored>`, the method
  `ExtractResumeData` and its step methods, and the post-pass loop
  `MissingFields`.
- `RecordFacts`: what each field of the result holds, stated against the
  matchers' specifications.
- `Pipeline`: `ExtractText`, `Reshape` and `ParseResume`.

In several places the code does something other than what its comments
and names suggest. In each of them, the model follows the code:

- **Name.** The comment on line 84 says "first non-empty line". Line 82
  strips every line first, so the name is that line *stripped*.
- **Section headers.** "Certifications", "Projects" and "Skills" are found
  anywhere in the text, in any letter case, not only as headers on a line
  of their own.
- **Year separator.** The education pattern's separator class `[â€“-]` is
  written with the en-dash's UTF-8 bytes read as Windows-1252. It therefore
  holds four characters: `â`, `€`, `“` and `-`. A real en-dash (U+2013)
  does not separate the years.
- **GitHub dot.** The dot in `github.com` is not escaped, so it matches any
  character except a newline.
- **`c++` and `\b`.** The vocabulary word `c++` ends in a non-word
  character. The `\b` after it is positional, so it only matches when the
  next character is a word character. "C++ and Java" therefore does not
  yield `c++` (lemma `SkillMatcher.CppBeforeSpaceIsMissed`).
- **`$`.** Without `re.M`, the `$` in the certifications pattern also
  matches just before a final newline, so that newline is not part of the
  section (lemma `SectionMatcher.CertificationsBeforeFinalNewline`).

## Model

| member | source | states |
|---|---|---|
| Record.ExtractResumeData | ResumeParserChallengeNK.py:67-165 | The returned dictionary is `ResumeRecord(text)`: the ten-key seed, each matcher's hit written with confidence 1 in source order, then the post-pass |
| Record.SeedKeys | ResumeParserChallengeNK.py:68-79 | The seed holds every key: `(None, 0)` for name, email, phone, linkedin and GitHub, and `([], 0)` for the five list fields |
| Record.FillAt | ResumeParserChallengeNK.py:81-157 | After the matchers run, each key holds `(v, 1)` when its own matcher found `v`, and otherwise its seed value; no matcher touches another key, and experience keeps its seed |
| Record.MissingFields | ResumeParserChallengeNK.py:160-163 | The post-pass loop leaves exactly the dictionary in which every entry with a falsy value is `(None, 0)` and every other entry is unchanged |
| Record.NormalizedStep | ResumeParserChallengeNK.py:160-162 | Visiting the i-th key normalises that entry and leaves every other entry as it was |
| Record.NameStep | ResumeParserChallengeNK.py:81-86 | The name entry becomes the first stripped non-blank line with confidence 1 when there is one; otherwise the dictionary is unchanged |
| Record.PatternStep | ResumeParserChallengeNK.py:89-106 | A single-match pattern's group becomes the entry with confidence 1; without a match the dictionary is unchanged |
| Record.SkillsStep | ResumeParserChallengeNK.py:114-116 | The skills entry becomes the found skills with confidence 1 when any are found; otherwise the dictionary is unchanged |
| Record.EducationStep | ResumeParserChallengeNK.py:119-132 | The education entry becomes the list of entries, one per match, when the pattern matches at all |
| Record.CertificationsStep | ResumeParserChallengeNK.py:135-139 | The certifications entry becomes the non-blank stripped lines of the section when the section exists and has any |
| Record.ProjectsStep | ResumeParserChallengeNK.py:142-157 | The projects entry becomes one entry per block whenever a projects section exists |
| Record.EducationList | ResumeParserChallengeNK.py:121-131 | The loop builds one entry per `findall` tuple, in order; every entry has a `DDDD - DDDD` year and a stripped one-line degree and institution |
| Record.ProjectList | ResumeParserChallengeNK.py:145-155 | The loop builds one entry per block, in order, and the list is never empty |
| RecordFacts.KeySet | ResumeParserChallengeNK.py:68-79 | The result has exactly the ten keys of the seed, whatever the text |
| RecordFacts.KeyNames | ResumeParserChallengeNK.py:68-79 | The keys are spelled name, email, phone, linkedin, GitHub (capitalised), skills, education, experience, certifications and projects, in that order, all distinct |
| RecordFacts.AllKeys | ResumeParserChallengeNK.py:68-79 | Whatever the matchers find, every key is in the dictionary |
| RecordFacts.FoundTruthy | ResumeParserChallengeNK.py:85-157 | No matcher ever writes a falsy value: the name is non-blank, no pattern matches the empty string, and the lists are tested for emptiness or are never empty |
| RecordFacts.RecordAt | ResumeParserChallengeNK.py:81-165 | Each key of the result holds `(v, 1)` when its matcher found `v`, and `(None, 0)` otherwise; the seed's `([], 0)` never survives |
| RecordFacts.ReportConfidence | ResumeParserChallengeNK.py:160-163 | For any truthy matcher results: confidence 1 exactly when the value is truthy, confidence 0 exactly when the entry is `(None, 0)` |
| RecordFacts.Confidence | ResumeParserChallengeNK.py:160-163 | On the result for any text: confidence 1 exactly when the value is truthy, confidence 0 exactly when the entry is `(None, 0)`, and a falsy value only ever appears as `(None, 0)` |
| RecordFacts.RecordFields | ResumeParserChallengeNK.py:67-165 | Field by field, the result is its own matcher's hit with confidence 1, or `(None, 0)`; experience is `(None, 0)` |
| RecordFacts.ExperienceMissing | ResumeParserChallengeNK.py:76 | The experience field is always `(None, 0)` |
| RecordFacts.NameReported | ResumeParserChallengeNK.py:81-86 | The name is the first line that is not blank, stripped, with confidence 1; it is `(None, 0)` exactly when every line is blank |
| RecordFacts.EmailReported | ResumeParserChallengeNK.py:89-91 | The e-mail is the leftmost `local@domain` span, not preceded by an address character, with confidence 1; it is `(None, 0)` exactly when no such span exists |
| RecordFacts.PhoneReported | ResumeParserChallengeNK.py:94-96 | The phone is the leftmost run of ten digits with no word character on either side; it is `(None, 0)` exactly when there is none |
| RecordFacts.LinkedInReported | ResumeParserChallengeNK.py:99-101 | LinkedIn is the leftmost `http(s)://www.linkedin.com/in/…` link, up to the next whitespace; `(None, 0)` exactly when there is none |
| RecordFacts.GitHubReported | ResumeParserChallengeNK.py:104-106 | GitHub is the leftmost `http(s)://github?com/…` link, `?` being any character but a newline; `(None, 0)` exactly when there is none |
| RecordFacts.SkillsReported | ResumeParserChallengeNK.py:109-116 | The skills are distinct vocabulary words, at most 21; a word is listed exactly when it occurs as a whole word, case ignored; `(None, 0)` exactly when no vocabulary word occurs |
| RecordFacts.EducationReported | ResumeParserChallengeNK.py:119-132 | The education list has one well-formed entry per match, in order; `(None, 0)` exactly when the pattern never matches |
| RecordFacts.CertificationsReported | ResumeParserChallengeNK.py:135-139 | The certifications are the non-blank lines of the section, each stripped, all of them and in the order of the lines: the k-th is the strip of the k-th non-blank line. Each is non-empty and holds no newline. The field is `(None, 0)` exactly when there is no section or all its lines are blank |
| RecordFacts.ProjectsReported | ResumeParserChallengeNK.py:142-157 | Projects are present exactly when "projects" occurs in any case. The entries are `ToProject` of the blocks of the section, in order, one per block and at least one, each with a stripped title and description |
| RecordFacts.NormalizedIdempotent | ResumeParserChallengeNK.py:160-162 | Running the post-pass twice gives the same dictionary as running it once |
| RecordFacts.EmptyText | ResumeParserChallengeNK.py:67-165 | On the empty text, every field is `(None, 0)` |
| Patterns.EmailEndAtSpec | ResumeParserChallengeNK.py:89 | The scan at a position ends at `f` exactly when the text there is a non-empty address run, `@`, and a maximal non-empty address run ending at `f` |
| Patterns.FindEmail | ResumeParserChallengeNK.py:89-91 | A found address is never empty, so it is always truthy |
| Patterns.FindEmailSpec | ResumeParserChallengeNK.py:89 | The e-mail found is the leftmost whole `local@domain` span; nothing is found exactly when no position has one |
| Patterns.FindPhone | ResumeParserChallengeNK.py:94-96 | A found phone number is exactly ten characters long |
| Patterns.FindPhoneSpec | ResumeParserChallengeNK.py:94 | The phone found is ten digits, flanked by non-word characters or the ends of the text, at the leftmost such position; nothing is found exactly when there is none |
| Patterns.UrlEndAtSpec | ResumeParserChallengeNK.py:99-104 | The scan at a position ends at `f` exactly when the text there is `http` or `https`, the tail, and a maximal non-empty run of non-whitespace ending at `f` |
| Patterns.FindUrl | ResumeParserChallengeNK.py:99-106 | A found link is never empty, so it is always truthy |
| Patterns.FindUrlSpec | ResumeParserChallengeNK.py:99-104 | The link found is the leftmost whole URL span with the given tail; nothing is found exactly when no position has one |
| SkillMatcher.Mentioned | ResumeParserChallengeNK.py:59-62 | A word is appended exactly when it is in the list and the text mentions it |
| SkillMatcher.Distinct | ResumeParserChallengeNK.py:63 | The result holds exactly the elements of the input, with no duplicates |
| SkillMatcher.MentionsSpec | ResumeParserChallengeNK.py:61 | The search succeeds exactly when the word occurs somewhere with a `\b` on both sides, case ignored |
| SkillMatcher.ExtractSkills | ResumeParserChallengeNK.py:58-63 | The result has no duplicates, and a word is in it exactly when it is in the list and occurs as a whole word in the text |
| SkillMatcher.VocabularySkills | ResumeParserChallengeNK.py:109-114 | Against the fixed vocabulary: the skills are distinct vocabulary words, no more than the vocabulary holds, each exactly when it occurs as a whole word |
| SkillMatcher.EmptyMentionsNothing | ResumeParserChallengeNK.py:58-63 | The empty text mentions no non-empty word |
| SkillMatcher.CppBeforeSpaceIsMissed | ResumeParserChallengeNK.py:61 | "C++ and Java" does not mention `c++`: the positional `\b` after `+` needs a word character next |
| EducationMatcher.FinishYear | ResumeParserChallengeNK.py:119 | Trying `\s*(\d{4})` with the whitespace run cut from longest to shortest: a match keeps the three earlier groups, takes four digits as the last group, and ends after the run's start |
| EducationMatcher.Dash | ResumeParserChallengeNK.py:119 | Trying `\s*[â€“-]\s*` with the run cut from longest to shortest: a match keeps the three earlier groups, has a four-digit last group, and ends after the run's start |
| EducationMatcher.StartYear | ResumeParserChallengeNK.py:119 | Trying `\s*(\d{4})` after the second comma: a match keeps the two text groups and has four-digit start and finish years |
| EducationMatcher.Institution | ResumeParserChallengeNK.py:119 | Growing the lazy second group one character at a time: a match keeps the degree, and its institution is non-empty and on one line, with two four-digit years |
| EducationMatcher.AfterFirstComma | ResumeParserChallengeNK.py:119 | Trying `\s*` after the first comma from longest to shortest, then the second group: a match keeps the degree, with a non-empty one-line institution and two four-digit years |
| EducationMatcher.Degree | ResumeParserChallengeNK.py:119 | Growing the lazy first group one character at a time: every match has non-empty one-line text groups and two four-digit years, and ends after the current group end |
| EducationMatcher.MatchAt | ResumeParserChallengeNK.py:119 | A match starting at a position has non-empty one-line text groups and two four-digit years, and ends after that position |
| EducationMatcher.FindAll | ResumeParserChallengeNK.py:119 | Every match has a non-empty, one-line degree and institution and two four-digit years, and it ends after the position the search started from |
| EducationMatcher.ToEntryWellFormed | ResumeParserChallengeNK.py:122-131 | An entry built from a match is well formed, and its year is the two year groups joined by ` - ` |
| EducationMatcher.EntriesWellFormed | ResumeParserChallengeNK.py:119-131 | Every education entry of every text has a `DDDD - DDDD` year and a stripped one-line degree and institution |
| SectionMatcher.StopFrom | ResumeParserChallengeNK.py:135 | The lazy group stops at the first position from its start where "projects", "skills" or `$` matches, and such a position always exists |
| SectionMatcher.CertificationsSectionSpec | ResumeParserChallengeNK.py:135 | The section exists exactly when "certifications" occurs in any case. It runs from the end of the whitespace after the first occurrence to the first position where "projects" or "skills" occurs or `$` matches (the end of the text, or just before a final newline), and no earlier position stops it |
| SectionMatcher.CertificationsBeforeFinalNewline | ResumeParserChallengeNK.py:135 | For "Certifications\nA\n" the section is "A": the lazy group stops where `$` matches before the final newline |
| SectionMatcher.CertificationsInOrder | ResumeParserChallengeNK.py:137 | The certifications are the non-blank lines of the section, stripped, in order: the k-th is the strip of the k-th non-blank line, and no non-blank line is dropped |
| SectionMatcher.CertificationsAreLines | ResumeParserChallengeNK.py:137 | Every certification is non-empty, stripped and free of newlines |
| SectionMatcher.ProjectsSectionSpec | ResumeParserChallengeNK.py:142-143 | The section exists exactly when "projects" occurs in any case. It is the rest of the text from the first occurrence, without the whitespace that follows it, up to the end |
| SectionMatcher.BlocksFrom | ResumeParserChallengeNK.py:145 | From any scan point, the first block is the text from the block start up to a newline or the end of the section, and every later block starts with a capital letter |
| SectionMatcher.Blocks | ResumeParserChallengeNK.py:145 | The split yields at least one block, and every block after the first starts with a capital letter |
| SectionMatcher.BlocksJoin | ResumeParserChallengeNK.py:145 | Joining the blocks with newlines gives back the section: the split loses only the newlines it splits at |
| SectionMatcher.BlocksCuts | ResumeParserChallengeNK.py:145 | No block holds a newline followed by a title line (a capital, 3 to 100 characters of the same line, a colon), and every block after the first starts with a title line. Together with `BlocksJoin`, this fixes the blocks completely |
| SectionMatcher.BlocksFromJoin | ResumeParserChallengeNK.py:145 | The same, from any point of the scan |
| SectionMatcher.ToProjectShape | ResumeParserChallengeNK.py:148-151 | A title neither starts nor ends with a colon or a space; a description is stripped; neither holds a newline |
| SectionMatcher.ToProjectTitle | ResumeParserChallengeNK.py:148-150 | A block starting with a capital letter gives a title starting with that letter |
| SectionMatcher.ProjectsShape | ResumeParserChallengeNK.py:145-155 | There is one project per block, at least one; every title and description is stripped; every title after the first starts with a capital letter |
| Pipeline.ExtractText | ResumeParserChallengeNK.py:36-41 | OCR is used exactly when the stripped embedded text is shorter than 50 characters; the text returned is then the OCR text, otherwise the embedded text |
| Pipeline.ChoiceIgnoresPadding | ResumeParserChallengeNK.py:38 | Whitespace around the embedded text never changes the choice |
| Pipeline.ChoiceOfStrippedText | ResumeParserChallengeNK.py:37-40 | An already-stripped embedded text (what the PDF reader returns) is kept exactly when it has at least 50 characters |
| Pipeline.Reshape | ResumeParserChallengeNK.py:174-179 | The records have the same keys as the pairs, and each keeps its pair's value and confidence, so unwrapping gives back the pairs |
| Pipeline.ParseResume | ResumeParserChallengeNK.py:169-180 | The output unwraps to `extract_resume_data` of the chosen text; every key is present; confidence 1 exactly when the value is truthy, 0 exactly when the value is None |
| Text.Split | ResumeParserChallengeNK.py:81 | `split('\n')` yields at least one piece, and no piece holds the separator |
| Text.Strip | ResumeParserChallengeNK.py:82 | The result has no whitespace at either end, is empty exactly when the text is all whitespace, and holds only characters of the text |
| Text.StrippedNonBlank | ResumeParserChallengeNK.py:81-82 | No more elements than lines, and each is non-empty and stripped |
| Text.JoinSplit | ResumeParserChallengeNK.py:81 | Joining the pieces of `split('\n')` with newlines gives back the text |
| Text.StripIdempotent | ResumeParserChallengeNK.py:38 | Stripping twice is stripping once: line 38 strips the text that line 24 already stripped |
| Text.StripPadded | ResumeParserChallengeNK.py:38 | Whitespace around a string does not change what `strip()` keeps |
| Text.StrippedNonBlankEmpty | ResumeParserChallengeNK.py:82-85 | The list of stripped non-blank lines is empty exactly when every line is blank |
| Text.NonBlankFromSpec | ResumeParserChallengeNK.py:82 | The index list holds the indices of the non-blank lines, each once, in increasing order |
| Text.StrippedNonBlankInOrder | ResumeParserChallengeNK.py:82 | The filtered list is the stripped non-blank lines in order: the k-th element is the strip of the k-th non-blank line, and every non-blank line is in it |
| Text.StrippedNonBlankOrigins | ResumeParserChallengeNK.py:82 | Every element of the filtered list is the strip of one of the lines |
| Text.StrippedNonBlankFirst | ResumeParserChallengeNK.py:82-86 | Its first element is the strip of the first line that is not blank |

## Left out

- `extract_text_with_pdfplumber` and `extract_text_with_easyocr` (lines 14-32) read the file and run OCR. This is external I/O, not modelled. Their results are the parameters `embedded` and `ocr` of `Pipeline.ExtractText` and `Pipeline.ParseResume`. The path argument and the stripping on line 24 are therefore not modelled either: `ChoiceOfStrippedText` covers that stripped case.
- The exception handler around pdfplumber (lines 16-23): the pages are added one by one (lines 18-21), so a failure yields the stripped text of the pages read before it, possibly empty. That is still a value `embedded` can take.
- `extract_text_with_easyocr` (lines 28-32) has no exception handler, so an OCR failure propagates out of `extract_text` and `parse_resume`. The parameter `ocr` assumes that the call returns; the failing path is not modelled.
- Every `logging` call (lines 10, 23, 39, 53, 163): these are side effects on a log sink and do not change the result.
- `normalize_dates` (lines 45-54) is not modelled. The core never calls it, and it depends on `datetime.strptime`.
- The script at lines 184-188 (a fixed path, `json.dumps` and `print`) is not modelled.
- `\w`, `\d` and `re.IGNORECASE` are approximated by ASCII letters, ASCII digits and the underscore, with ASCII case folding. Python's Unicode classes and case folding (for example, the Kelvin sign matching `k`) are not modelled. `\s` and `str.strip()` use the exact `str.isspace` set.
- `SkillMatcher.ExtractSkills`: `list(set(found_skills))` has no specified order. The model fixes vocabulary order (`SkillsFound`), and that order reaches `ResumeRecord` and `ParseResume`. The promises proved about skills (`RecordFacts.SkillsAre`, `VocabularySkills` and the last two ensures of `ExtractSkills`) are about membership and the absence of duplicates only.
- `Pipeline.Reshape`: a `map` has no order. The order in which the dictionary is visited and printed is the seed's insertion order, recorded as `Record.FieldOrder`, which the loops of `MissingFields` and `Reshape` follow.
- `Record.MissingFields`: the test `isinstance(value, list) and not value` on line 161 is implied by `not value`, so it is subsumed by `IsFalsy`.
- Python's dynamic typing: the values a field can hold are fixed by the datatype `Record.Value`.
