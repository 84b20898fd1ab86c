/** generate_access_code: `length` characters drawn from ascii_uppercase + digits. The
    random draws are a parameter: picks[i] is the position random.choice took for
    character i. */
module AccessCode {

  const DefaultLength: nat := 6

  /** string.ascii_uppercase + string.digits */
  const CodeCharacters: string := "ABCDEFGHIJKLMNOPQRSTUVWXYZ0123456789"

  predicate IsCodeChar(c: char) { 'A' <= c <= 'Z' || '0' <= c <= '9' }

  /** The position of a code character in CodeCharacters. */
  function CharPosition(c: char): (k: nat)
    requires IsCodeChar(c)
    ensures k < |CodeCharacters| && CodeCharacters[k] == c
  {
    if 'A' <= c <= 'Z' then c as int - 'A' as int else 26 + (c as int - '0' as int)
  }

  /** Every character of CodeCharacters is a code character. */
  lemma CodeCharactersAreCodeChars()
    ensures forall k :: 0 <= k < |CodeCharacters| ==> IsCodeChar(CodeCharacters[k])
  {
    var upper, digits := "ABCDEFGHIJKLMNOPQRSTUVWXYZ", "0123456789";
    assert CodeCharacters == upper + digits;
    assert forall k :: 0 <= k < |upper| ==> 'A' <= upper[k] <= 'Z';
    assert forall k :: 0 <= k < |digits| ==> '0' <= digits[k] <= '9';
  }

  predicate ValidPicks(picks: seq<nat>)
  {
    forall i :: 0 <= i < |picks| ==> picks[i] < |CodeCharacters|
  }

  function GenerateAccessCode(length: nat, picks: seq<nat>): (code: string)
    requires |picks| == length && ValidPicks(picks)
    ensures |code| == length
    ensures forall i :: 0 <= i < |code| ==> IsCodeChar(code[i])
  {
    CodeCharactersAreCodeChars();
    seq(length, i requires 0 <= i < length => CodeCharacters[picks[i]])
  }

  /** Every string of the right length over the alphabet is a possible code: the generator
      constrains a code to its length and alphabet and nothing else. */
  lemma EveryCodeIsReachable(code: string)
    requires forall i :: 0 <= i < |code| ==> IsCodeChar(code[i])
    ensures exists picks :: |picks| == |code| && ValidPicks(picks) && GenerateAccessCode(|code|, picks) == code
  {
    var picks := seq(|code|, i requires 0 <= i < |code| => CharPosition(code[i]));
    assert GenerateAccessCode(|code|, picks) == code;
  }
}
