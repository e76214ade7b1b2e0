# Utility functions of a small unit-test repository, modelled in Dafny

The repository holds unit tests for standalone JavaScript utilities. Their
implementations (`utils/*.js`) are not part of this model. The model is built
from the tests' assertions; where the tests are silent, the choices made are
listed under "Other decisions" below, and what the model does not capture
(the NaN case of `findMin` among them) is listed under "## Left out". Four
groups are covered, one Dafny module each:

- `ArrayUtils` (`array_utils.dfy`) — `findMax`, `findMin` and `removeDuplicates`
  over an array of numbers. The empty-array results -Infinity and +Infinity are
  the `NegInf` and `PosInf` values of `ExtInt`. A non-array argument gives the
  error "Input must be an array".
- `StringUtils` (`string_utils.dfy`) — `capitalize`, `reverseString` and
  `isPalindrome`. A non-string argument gives the error "Input must be a string".
  The palindrome check is literal: text equals its reversal, with no folding of
  case, spaces or punctuation.
- `KnowledgeChecker` (`knowledge_checker.dfy`) — `checkStudentKnowledge`. An
  answer object is its list of (question, answer) pairs in the object's property
  enumeration order (insertion order for keys such as `q1`), and an answer is
  text, a number, `null` or `undefined`. Two objects match when they
  list the same questions in the same order with strictly equal answers. The test
  at `tests/studentKnowledgeCheckerUtil.test.js:23-28` has a comment saying
  reordered questions should match, but its assertion expects `false`. The model
  follows the assertion: `ReorderedAnswersFail` shows that swapping two questions
  keeps the key/value content the same and still fails the check.
- `UsersList` (`users_list.dfy`) — `filterUsersByAge`, `sortUsersByName`,
  `findUserById` and `isEmailTaken`. A list element is a user record or any other
  object, such as a nested array, and such non-record objects never match. A non-array
  argument gives the error "Users must be an array". `sortUsersByName` is a
  method. It copies the caller's array into a fresh one and insertion-sorts the
  copy by name. It is proved to return a sorted permutation and to leave the
  caller's array as it was.

`Common` (`common.dfy`) holds `Result`, where a thrown error is `Err(message)`,
and `Option`, where a JavaScript `null` result is `None`.

Other decisions:

- The age range of `filterUsersByAge` is inclusive at both ends. The tests never
  probe the end points.
- A text age counts as its decimal value when it is a non-empty string of digits.
  Any other text, and a missing age, is in no range. The tests include a record
  without an age (`tests/usersListUtils.test.js:209`), so `Age` has a `NoAge` case.
- Names are ordered lexicographically by character code.
- Upper-casing is ASCII only.

## Model

| member | source | states |
|---|---|---|
| ArrayUtils.MaxOf | tests/arrayUtils.test.js:7-29 | empty input gives -Infinity; otherwise the result is an element of the input and is at least every element |
| ArrayUtils.FindMax | tests/arrayUtils.test.js:6-33 | non-array input fails with "Input must be an array"; [] gives -Infinity; otherwise an element that bounds all elements from above |
| ArrayUtils.MaxOfIsUnique | tests/arrayUtils.test.js:7-25 | any element that bounds all the others is the maximum that is returned |
| ArrayUtils.MinOf | tests/arrayUtils.test.js:37-59 | empty input gives +Infinity; otherwise the result is an element of the input and is at most every element |
| ArrayUtils.FindMin | tests/arrayUtils.test.js:36-63 | non-array input fails with "Input must be an array"; [] gives +Infinity; otherwise an element that bounds all elements from below |
| ArrayUtils.MaxAndMinExamples | tests/arrayUtils.test.js:8-58 | the tests' cases: max of [1,2,2,3,3,3] is 3, of [-1,-2] is -1, min of [-1,-2] is -2, and the empty-array infinities |
| ArrayUtils.DedupFrom | tests/arrayUtils.test.js:70-93 | the output has no repeats and holds exactly the input values not already seen |
| ArrayUtils.Dedup | tests/arrayUtils.test.js:70-93 | the output has no repeats, the same set of values as the input, and lists them in the order of their first occurrences |
| ArrayUtils.RemoveDuplicates | tests/arrayUtils.test.js:70-93 | non-array input fails; otherwise the output has no repeats, the same set of values as the input, first-occurrence order, and is `Dedup` of the input (so the lemmas about `Dedup` apply) |
| ArrayUtils.DedupFromKeepsFirstOccurrenceOrder | tests/arrayUtils.test.js:75-93 | kept values appear in the order of their first occurrences in the input |
| ArrayUtils.DedupFromOfUnique | tests/arrayUtils.test.js:71-73 | a repeat-free input that avoids the seen values passes through unchanged |
| ArrayUtils.DedupOfUnique | tests/arrayUtils.test.js:71-73 | an already-unique array is returned unchanged |
| ArrayUtils.DedupIdempotent | tests/arrayUtils.test.js:71-77 | removing duplicates twice gives the same as once |
| ArrayUtils.DedupExampleNegatives | tests/arrayUtils.test.js:91-93 | [-1,-2,-2,0,1,1] gives [-1,-2,0,1] |
| ArrayUtils.DedupExampleZeros | tests/arrayUtils.test.js:87-89 | [0,0,0] gives [0] |
| StringUtils.ToUpper | tests/stringUtils.test.js:10-20 | lower-case ASCII letters become their capitals; every other character is kept |
| StringUtils.CapitalizeText | tests/stringUtils.test.js:10-20 | same length; the first character is upper-cased and the rest is unchanged |
| StringUtils.Capitalize | tests/stringUtils.test.js:9-24 | non-string input fails with "Input must be a string"; otherwise same length, first character upper-cased, the rest unchanged |
| StringUtils.CapitalizeKeepsCapitalized | tests/stringUtils.test.js:18-20 | text not starting with a lower-case letter is left unchanged |
| StringUtils.CapitalizeIdempotent | tests/stringUtils.test.js:18-20 | capitalizing twice gives the same as once |
| StringUtils.CapitalizeExamples | tests/stringUtils.test.js:14-20 | "hello world" gives "Hello world"; "HELLO WORLD" is unchanged |
| StringUtils.Reverse | tests/stringUtils.test.js:28-34 | same length, character i is the input's character from the other end |
| StringUtils.ReverseString | tests/stringUtils.test.js:27-46 | non-string input fails; otherwise the characters in reverse order (empty gives empty) |
| StringUtils.ReverseInvolutive | tests/stringUtils.test.js:36-38 | reversing reversed text gives the original |
| StringUtils.IsPalindromeText | tests/stringUtils.test.js:50-66 | text is a palindrome iff each character equals its mirror character |
| StringUtils.IsPalindrome | tests/stringUtils.test.js:49-74 | non-string input fails; otherwise true iff each character equals its mirror character |
| StringUtils.EndsDifferNotPalindrome | tests/stringUtils.test.js:58-66 | text whose first and last characters differ (in case only, or by punctuation) is not a palindrome |
| StringUtils.EmptyIsPalindrome | tests/stringUtils.test.js:72-74 | the empty string is a palindrome |
| StringUtils.RacecarIsPalindrome | tests/stringUtils.test.js:50-52 | "racecar" is a palindrome |
| StringUtils.SentencesAreNotPalindromes | tests/stringUtils.test.js:58-66 | the two sentence palindromes are rejected, since case and spaces are not folded |
| KnowledgeChecker.StrictEquals | tests/studentKnowledgeCheckerUtil.test.js:36-58 | two answers are strictly equal iff they are the same kind and the same value; null, undefined, text and numbers never equal each other |
| KnowledgeChecker.CheckStudentKnowledge | tests/studentKnowledgeCheckerUtil.test.js:4-59 | true iff both objects list the same questions in the same order with strictly equal answers |
| KnowledgeChecker.CheckIsReflexive | tests/studentKnowledgeCheckerUtil.test.js:5-9 | every answer object matches itself |
| KnowledgeChecker.EmptyAnswersMatch | tests/studentKnowledgeCheckerUtil.test.js:30-34 | two empty objects match |
| KnowledgeChecker.MissingAnswerFails | tests/studentKnowledgeCheckerUtil.test.js:17-21 | fewer student answers than questions fails |
| KnowledgeChecker.WrongAnswerFails | tests/studentKnowledgeCheckerUtil.test.js:11-15 | one answer not strictly equal to the correct one fails |
| KnowledgeChecker.AddAllSwapAdjacent | tests/studentKnowledgeCheckerUtil.test.js:23-28 | swapping two neighbouring distinct questions leaves the key/value content unchanged |
| KnowledgeChecker.ReorderedAnswersFail | tests/studentKnowledgeCheckerUtil.test.js:23-28 | the same questions and answers in a different order still fail the check |
| KnowledgeChecker.CheckImpliesSameContent | tests/studentKnowledgeCheckerUtil.test.js:5-9 | a passing check implies equal key/value content |
| KnowledgeChecker.NullAndUndefinedNeverMatchText | tests/studentKnowledgeCheckerUtil.test.js:42-58 | null on either side, and undefined, is never strictly equal to text |
| KnowledgeChecker.TestCases | tests/studentKnowledgeCheckerUtil.test.js:23-52 | mixed text/number answers match; a null answer fails; the reordered object fails |
| UsersList.DigitsValue | tests/usersListUtils.test.js:64-74 | the value of a digit string is below 10 to the number of digits |
| UsersList.DigitsValueLeadingDigit | tests/usersListUtils.test.js:64-74 | a leading digit contributes its value times 10 to the number of digits after it (positional decimal) |
| UsersList.NumericAge | tests/usersListUtils.test.js:64-74 | a numeric age is itself; a non-empty digit text is its decimal value; any other text and a missing age are no number |
| UsersList.InAgeRange | tests/usersListUtils.test.js:10-74 | a numeric age is in range iff min <= age <= max; a missing age is never in range; nothing is in range when min > max |
| UsersList.TextAgeComparesAsNumber | tests/usersListUtils.test.js:64-74 | the text age "24" compares as the number 24 |
| UsersList.FilterEntries | tests/usersListUtils.test.js:9-74 | a user is in the result iff its record is in the input and its age lies in [min, max] |
| UsersList.FilterUsersByAge | tests/usersListUtils.test.js:9-74 | non-array input fails with "Users must be an array"; otherwise exactly the in-range records, as `FilterEntries` of the input (so the order-keeping append lemma applies) |
| UsersList.FilterEntriesAppend | tests/usersListUtils.test.js:10-20 | filtering a concatenation is the concatenation of the filtered parts, so input order is kept |
| UsersList.FilterEntriesSingle | tests/usersListUtils.test.js:44-52 | a one-element list keeps its record, unchanged, iff the record is in range |
| UsersList.FilterEmptyRange | tests/usersListUtils.test.js:54-62 | with min > max the result is empty |
| UsersList.StringAgeIsKeptAsText | tests/usersListUtils.test.js:64-74 | a record with text age "24" is selected by [23, 29] and returned with its text age |
| UsersList.FirstWithId | tests/usersListUtils.test.js:119-172 | the index of the first record with the id, or the length when there is none |
| UsersList.FindUserById | tests/usersListUtils.test.js:119-172 | non-array input fails; null iff no record has the id; otherwise the earliest record with that id |
| UsersList.NonRecordsNeverFound | tests/usersListUtils.test.js:166-172 | a list of nested arrays gives null |
| UsersList.DuplicateIdGivesFirst | tests/usersListUtils.test.js:151-164 | with duplicated ids the first record is returned |
| UsersList.EmailIn | tests/usersListUtils.test.js:175-231 | true iff some record's email equals the query exactly |
| UsersList.IsEmailTaken | tests/usersListUtils.test.js:175-231 | non-array input fails; otherwise true iff some record's email equals the query exactly |
| UsersList.NoEmailInEmptyList | tests/usersListUtils.test.js:202-205 | an empty list has no email taken |
| UsersList.EmailComparisonIsCaseSensitive | tests/usersListUtils.test.js:224-231 | upper-case stored emails do not match a lower-case query |
| UsersList.LexLe | tests/usersListUtils.test.js:78-90 | the name comparator, JavaScript's `<` on strings character by character: a prefix is ordered before every extension of it |
| UsersList.LexLeTotal | tests/usersListUtils.test.js:78-90 | any two names are ordered one way or the other |
| UsersList.LexLeTransitive | tests/usersListUtils.test.js:78-90 | the name order is transitive |
| UsersList.LexLeAntisymmetric | tests/usersListUtils.test.js:78-90 | names ordered both ways are equal |
| UsersList.InsertionSortByName | tests/usersListUtils.test.js:78-90 | the array ends up ordered by name and is a permutation of what it held |
| UsersList.SortUsersByName | tests/usersListUtils.test.js:77-116 | non-array input fails; otherwise a fresh array, ordered by name, a permutation of the input, with the caller's array unchanged |

## Left out

- `tests/mathUtils.test.js` (add, subtract, multiply, divide): its behaviour is IEEE floating point (NaN, Infinity, non-integer quotients) and JavaScript's loose coercion of strings and booleans. An integer model would misrepresent it.
- Numbers are unbounded integers. Floating point, NaN (`findMin([1, NaN])`, `tests/arrayUtils.test.js:65-67`) and the distinction between 0 and -0 are not modelled.
- Dynamic typing is reduced to an explicit "not an array" / "not a string" argument case. Other wrong-typed values inside arrays (strings in a number array, say) are not modelled.
- NumericAge: only non-empty decimal digit strings count as numbers. JavaScript's `Number()` also accepts signs, decimals, surrounding spaces and the empty string, and these are not modelled.
- SortUsersByName: orders names by character code, not by `localeCompare`. It does not state stability, since the tests do not fix the order of equal names. It takes an array of records only; an array with non-record entries is not modelled for sorting, because the tests do not say what happens.
- Capitalize: upper-cases ASCII letters only. Unicode case mapping is not modelled.
- Reverse and LexLe: a character is a Unicode code point, while JavaScript strings are UTF-16 code units. Reversal, and the name order `LexLe` as JavaScript's `<` on strings, agree with JavaScript for text inside the Basic Multilingual Plane, not for characters written as surrogate pairs. `LexLe` is not `localeCompare`, which for instance puts "alice" before "Bob" where character codes put it after.
- NonRecord: stands for an object that is not a user record (a nested array). `null` and `undefined` list elements are not modelled, because reading a field of them throws a TypeError in JavaScript rather than being skipped.
- CheckStudentKnowledge: takes the pairs in the listed order. JavaScript enumerates integer-like keys (such as `1` or `2`) first, in ascending numeric order, before other keys in insertion order; that reordering is not modelled, so for such keys the list must be given in enumeration order, and `ReorderedAnswersFail` speaks about enumeration order, not source-text order.
- CheckStudentKnowledge: compares pair lists, so a list with a repeated question, which no JavaScript object can have, is still accepted as input.
- Record fields other than id, name, age and email are not modelled.
