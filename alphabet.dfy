/** The 26-letter alphabet the trie is indexed by, the character arithmetic
    `c - 'a'` that turns a letter into a child slot, and the ASCII part of
    Java's `String.toLowerCase`. */
module Alphabet {

  /** The number of letters in the alphabet: the width of every children array. */
  const NumLetters: int := 26

  predicate IsLower(c: char) { 'a' <= c <= 'z' }

  predicate IsUpper(c: char) { 'A' <= c <= 'Z' }

  /** Every character is one of 'a'..'z': the words the trie can hold. */
  predicate IsLowerWord(s: string) { forall k :: 0 <= k < |s| ==> IsLower(s[k]) }

  /** Every character is an ASCII letter of either case. */
  predicate IsLetterWord(s: string) { forall k :: 0 <= k < |s| ==> IsLower(s[k]) || IsUpper(s[k]) }

  /** The child slot `c - 'a'` of a character. It is a valid index into a
      children array exactly when `c` is a lower-case letter; for every other
      character the array access in the source is out of bounds. */
  function SlotOf(c: char): (r: int)
    ensures 0 <= r < NumLetters <==> IsLower(c)
  {
    c as int - 'a' as int
  }

  /** The letter that child slot `i` stands for. */
  function Letter(i: int): (c: char)
    requires 0 <= i < NumLetters
    ensures IsLower(c) && SlotOf(c) == i
  {
    ('a' as int + i) as char
  }

  /** A lower-case letter is the letter of its own slot. */
  lemma LetterOfSlot(c: char)
    requires IsLower(c)
    ensures Letter(SlotOf(c)) == c
  {
  }

  /** Distinct slots stand for distinct letters. */
  lemma LetterInjective(i: int, j: int)
    requires 0 <= i < NumLetters && 0 <= j < NumLetters
    ensures Letter(i) == Letter(j) <==> i == j
  {
    assert SlotOf(Letter(i)) == i && SlotOf(Letter(j)) == j;
  }

  /** `Character.toLowerCase` on ASCII: 'A'..'Z' become 'a'..'z' (same
      alphabet position), every other character is left as it is. */
  function ToLower(c: char): (r: char)
    ensures IsUpper(c) ==> IsLower(r) && SlotOf(r) == c as int - 'A' as int
    ensures !IsUpper(c) ==> r == c
  {
    if IsUpper(c) then (c as int - 'A' as int + 'a' as int) as char else c
  }

  /** `String.toLowerCase` on ASCII, character by character. */
  function ToLowerWord(s: string): (r: string)
    ensures |r| == |s|
    ensures forall k :: 0 <= k < |s| ==> r[k] == ToLower(s[k])
  {
    if s == [] then [] else [ToLower(s[0])] + ToLowerWord(s[1..])
  }

  /** Lowering yields a word the trie can hold exactly when the input consists
      of ASCII letters. */
  lemma ToLowerWordIsLower(s: string)
    ensures IsLowerWord(ToLowerWord(s)) <==> IsLetterWord(s)
  {
    var r := ToLowerWord(s);
    if !IsLetterWord(s) {
      var k :| 0 <= k < |s| && !(IsLower(s[k]) || IsUpper(s[k]));
      assert !IsLower(r[k]);
    }
  }

  /** Lowering leaves a lower-case word as it is. */
  lemma ToLowerWordKeepsLower(s: string)
    requires IsLowerWord(s)
    ensures ToLowerWord(s) == s
  {
  }

  /** Lowering twice is lowering once. */
  lemma ToLowerWordIdempotent(s: string)
    ensures ToLowerWord(ToLowerWord(s)) == ToLowerWord(s)
  {
  }
}
