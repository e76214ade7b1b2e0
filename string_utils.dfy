/** The string utilities: `capitalize`, `reverseString` and `isPalindrome`.
    Text is a sequence of characters and upper-casing is ASCII-only. */
module StringUtils {
  import opened Common

  /** Message of the error thrown when the argument is not a string. */
  const InputNotString := "Input must be a string"

  /** The argument of the string utilities: a string, or any other value. */
  datatype TextArg = Text(s: string) | NotString

  predicate IsLowerAscii(c: char) {
    'a' <= c <= 'z'
  }

  /** ASCII upper-casing: lower-case letters map to their capitals, all else is kept. */
  function ToUpper(c: char): (u: char)
    ensures IsLowerAscii(c) ==> 'A' <= u <= 'Z' && u as int == c as int - 32
    ensures !IsLowerAscii(c) ==> u == c
  {
    if IsLowerAscii(c) then (c as int - 32) as char else c
  }

  /** Upper-case the first character, keep the rest as it is. */
  function CapitalizeText(s: string): (r: string)
    ensures |r| == |s|
    ensures s != [] ==> r[0] == ToUpper(s[0]) && r[1..] == s[1..]
  {
    if s == [] then [] else [ToUpper(s[0])] + s[1..]
  }

  function Capitalize(input: TextArg): (r: Result<string>)
    ensures input.NotString? ==> r == Err(InputNotString)
    ensures input.Text? ==> r.Ok? && |r.value| == |input.s|
    ensures input.Text? && input.s != [] ==>
      r.value[0] == ToUpper(input.s[0]) && r.value[1..] == input.s[1..]
  {
    match input
    case NotString => Err(InputNotString)
    case Text(s) => Ok(CapitalizeText(s))
  }

  /** Text that does not start with a lower-case letter (already capitalised text,
      in particular) is left unchanged. */
  lemma CapitalizeKeepsCapitalized(s: string)
    requires s == [] || !IsLowerAscii(s[0])
    ensures CapitalizeText(s) == s
  {
  }

  lemma CapitalizeIdempotent(s: string)
    ensures CapitalizeText(CapitalizeText(s)) == CapitalizeText(s)
  {
  }

  lemma CapitalizeExamples()
    ensures Capitalize(Text("hello world")) == Ok("Hello world")
    ensures Capitalize(Text("HELLO WORLD")) == Ok("HELLO WORLD")
  {
    assert ToUpper('h') == 'H';
    assert "hello world"[1..] == "ello world";
    assert ['H'] + "ello world" == "Hello world";
    CapitalizeKeepsCapitalized("HELLO WORLD");
  }

  /** The characters of `s` in reverse order. */
  function Reverse(s: string): (r: string)
    ensures |r| == |s|
    ensures forall i :: 0 <= i < |s| ==> r[i] == s[|s| - 1 - i]
  {
    if s == [] then [] else Reverse(s[1..]) + [s[0]]
  }

  function ReverseString(input: TextArg): (r: Result<string>)
    ensures input.NotString? ==> r == Err(InputNotString)
    ensures input.Text? ==> r.Ok? && |r.value| == |input.s|
    ensures input.Text? ==>
      forall i :: 0 <= i < |input.s| ==> r.value[i] == input.s[|input.s| - 1 - i]
  {
    match input
    case NotString => Err(InputNotString)
    case Text(s) => Ok(Reverse(s))
  }

  /** Reversing reversed text gives the original back. */
  lemma ReverseInvolutive(s: string)
    ensures Reverse(Reverse(s)) == s
  {
  }

  /** A literal palindrome check: no case, space or punctuation folding. */
  predicate IsPalindromeText(s: string)
    ensures IsPalindromeText(s) <==> forall i :: 0 <= i < |s| ==> s[i] == s[|s| - 1 - i]
  {
    s == Reverse(s)
  }

  function IsPalindrome(input: TextArg): (r: Result<bool>)
    ensures input.NotString? ==> r == Err(InputNotString)
    ensures input.Text? ==> r.Ok?
    ensures input.Text? ==>
      (r.value <==> forall i :: 0 <= i < |input.s| ==> input.s[i] == input.s[|input.s| - 1 - i])
  {
    match input
    case NotString => Err(InputNotString)
    case Text(s) => Ok(IsPalindromeText(s))
  }

  /** Text whose first and last characters differ is not a palindrome, also when
      they differ only in case or one of them is a space or punctuation. */
  lemma EndsDifferNotPalindrome(s: string)
    requires |s| >= 2 && s[0] != s[|s| - 1]
    ensures !IsPalindromeText(s)
  {
  }

  lemma EmptyIsPalindrome()
    ensures IsPalindrome(Text("")) == Ok(true)
  {
  }

  lemma RacecarIsPalindrome()
    ensures IsPalindrome(Text("racecar")) == Ok(true)
  {
  }

  /** The sentence palindromes of the tests are rejected: case and spaces count. */
  lemma SentencesAreNotPalindromes()
    ensures IsPalindrome(Text("A man a plan a canal Panama")) == Ok(false)
    ensures IsPalindrome(Text("Was it a car or a cat I saw?")) == Ok(false)
  {
    EndsDifferNotPalindrome("A man a plan a canal Panama");
    EndsDifferNotPalindrome("Was it a car or a cat I saw?");
  }
}
