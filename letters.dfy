/** The key handler that both variants of the game install on their five
    single-character inputs (`mergeLetterInputFields`), so that the five
    slots behave as one five-letter text field, and the way a guess is
    collected from the slots. */
module Letters {

  /** The part of a browser keydown event the handler reads: `code` names
      the physical key, `key` is the text the key produces. */
  datatype KeyEvent = KeyEvent(code: string, key: string)

  /** What the handler does with one keydown. */
  datatype KeyAction =
    | Erase                  // the Backspace key: clear the slot
    | Ignore                 // a key outside the letter string
    | Accept(value: string)  // store `value` in the slot, then advance or submit

  /** Number of letter slots, and the index of the one that submits. */
  const Slots := 5
  const LastSlot := 4

  /** The string a key must occur in to be accepted. */
  const ValidLetters := "abcdefghijklmnopqrstuvwxyzABCDEFGHIJKLMNOPQRSTUVWXYZ"

  predicate IsLower(c: char) { 'a' <= c <= 'z' }
  predicate IsUpper(c: char) { 'A' <= c <= 'Z' }
  predicate IsLetter(c: char) { IsLower(c) || IsUpper(c) }

  /** Every character of `s` is an upper-case ASCII letter. */
  predicate AllUpper(s: string) {
    forall k :: 0 <= k < |s| ==> IsUpper(s[k])
  }

  /** `key` occurs in `s` starting at index `i`. */
  predicate OccursAt(s: string, key: string, i: int) {
    0 <= i && i + |key| <= |s| && s[i..i + |key|] == key
  }

  /** `s.includes(key)`, scanning `s` from the left. */
  predicate Includes(s: string, key: string)
    decreases |s|
  {
    (|key| <= |s| && s[..|key|] == key) || (s != [] && Includes(s[1..], key))
  }

  /** The scan finds `key` exactly when `key` is a substring of `s`. */
  lemma {:induction false} IncludesIffOccurs(s: string, key: string)
    ensures Includes(s, key) <==> exists i :: OccursAt(s, key, i)
    decreases |s|
  {
    if |key| <= |s| && s[..|key|] == key {
      assert OccursAt(s, key, 0);
    }
    if s != [] {
      IncludesIffOccurs(s[1..], key);
      if Includes(s[1..], key) {
        var i :| OccursAt(s[1..], key, i);
        assert s[1..][i..i + |key|] == s[i + 1..i + 1 + |key|];
        assert OccursAt(s, key, i + 1);
      }
      if exists i :: OccursAt(s, key, i) {
        var i :| OccursAt(s, key, i);
        if i > 0 {
          assert s[1..][i - 1..i - 1 + |key|] == s[i..i + |key|];
          assert OccursAt(s[1..], key, i - 1);
        }
      }
    }
  }

  /** The two halves of the letter string. */
  const LowerAlphabet := "abcdefghijklmnopqrstuvwxyz"
  const UpperAlphabet := "ABCDEFGHIJKLMNOPQRSTUVWXYZ"

  lemma LowerAt(k: int)
    requires 0 <= k < 26
    ensures LowerAlphabet[k] as int == 'a' as int + k
  {
  }

  lemma UpperAt(k: int)
    requires 0 <= k < 26
    ensures UpperAlphabet[k] as int == 'A' as int + k
  {
  }

  /** Position k of the letter string holds the k-th lower-case letter for
      k < 26 and the (k - 26)-th upper-case letter after that. */
  lemma ValidLetterAt(k: int)
    requires 0 <= k < |ValidLetters|
    ensures k < 26 ==> ValidLetters[k] as int == 'a' as int + k
    ensures k >= 26 ==> ValidLetters[k] as int == 'A' as int + k - 26
  {
    assert ValidLetters == LowerAlphabet + UpperAlphabet;
    if k < 26 { LowerAt(k); } else { UpperAt(k - 26); }
  }

  /** Every position of the letter string holds an ASCII letter, and every
      ASCII letter stands at some position. */
  lemma ValidLettersAreLetters(c: char)
    ensures (exists k :: 0 <= k < |ValidLetters| && ValidLetters[k] == c) <==> IsLetter(c)
  {
    if IsLower(c) {
      ValidLetterAt(c as int - 'a' as int);
    } else if IsUpper(c) {
      ValidLetterAt(c as int - 'A' as int + 26);
    }
    if exists k :: 0 <= k < |ValidLetters| && ValidLetters[k] == c {
      var k :| 0 <= k < |ValidLetters| && ValidLetters[k] == c;
      ValidLetterAt(k);
    }
  }

  /** A one-character key is found exactly when it is one of the characters. */
  lemma IncludesChar(s: string, c: char)
    ensures Includes(s, [c]) <==> exists k :: 0 <= k < |s| && s[k] == c
  {
    IncludesIffOccurs(s, [c]);
    if exists k :: 0 <= k < |s| && s[k] == c {
      var k :| 0 <= k < |s| && s[k] == c;
      assert OccursAt(s, [c], k);
    }
    if Includes(s, [c]) {
      var i :| OccursAt(s, [c], i);
      assert s[i] == s[i..i + 1][0];
    }
  }

  /** A one-character key is accepted exactly when it is an ASCII letter. */
  lemma SingleCharIncluded(c: char)
    ensures Includes(ValidLetters, [c]) <==> IsLetter(c)
  {
    IncludesChar(ValidLetters, c);
    ValidLettersAreLetters(c);
  }

  /** Each character of a key that is found also occurs in the string searched. */
  lemma IncludedCharOccurs(s: string, key: string, k: int)
    requires Includes(s, key) && 0 <= k < |key|
    ensures exists j :: 0 <= j < |s| && s[j] == key[k]
  {
    IncludesIffOccurs(s, key);
    var i :| OccursAt(s, key, i);
    assert s[i + k] == key[k];
  }

  /** Every substring of the letter string is made of ASCII letters. */
  lemma IncludedKeyIsLetters(key: string)
    requires Includes(ValidLetters, key)
    ensures forall k :: 0 <= k < |key| ==> IsLetter(key[k])
  {
    forall k | 0 <= k < |key| ensures IsLetter(key[k]) {
      IncludedCharOccurs(ValidLetters, key, k);
      ValidLettersAreLetters(key[k]);
    }
  }

  /** `toUpperCase` on one character; only ASCII letters ever reach it. */
  function UpperChar(c: char): char {
    if IsLower(c) then (c as int - 'a' as int + 'A' as int) as char else c
  }

  /** `toUpperCase` on a string of ASCII characters. */
  function ToUpper(s: string): (r: string)
    ensures |r| == |s|
    ensures forall k :: 0 <= k < |s| ==> r[k] == UpperChar(s[k])
  {
    if s == [] then [] else [UpperChar(s[0])] + ToUpper(s[1..])
  }

  /** The handler's decision for one keydown, in the order the handler tests:
      Backspace by its code, then the key against the letter string. An
      accepted key is stored upper-cased. */
  function Classify(ev: KeyEvent): (a: KeyAction)
    ensures a.Accept? ==> |a.value| == |ev.key| && AllUpper(a.value)
  {
    if ev.code == "Backspace" then Erase
    else if !Includes(ValidLetters, ev.key) then Ignore
    else
      IncludedKeyIsLetters(ev.key);
      Accept(ToUpper(ev.key))
  }

  /** For a one-character key other than Backspace the handler stores the
      upper-case letter exactly when the key is a letter, and otherwise
      ignores it. */
  lemma SingleKeyClassified(code: string, c: char)
    requires code != "Backspace"
    ensures IsLetter(c) ==> Classify(KeyEvent(code, [c])) == Accept([UpperChar(c)])
    ensures IsLetter(c) ==> IsUpper(UpperChar(c)) && (IsUpper(c) ==> UpperChar(c) == c)
    ensures !IsLetter(c) <==> Classify(KeyEvent(code, [c])) == Ignore
  {
    SingleCharIncluded(c);
    assert ToUpper([c]) == [UpperChar(c)];
  }

  /** A slot row with every slot empty. */
  function Blanks(): seq<string> {
    seq(Slots, _ => "")
  }

  /** The guess: the slot values concatenated in slot order. */
  function Concat(slots: seq<string>): string {
    if slots == [] then "" else Concat(slots[..|slots| - 1]) + slots[|slots| - 1]
  }

  /** Slots that each hold one letter give a guess of that many letters,
      with the letter of slot k at position k. */
  lemma {:induction false} ConcatOfFilledSlots(slots: seq<string>)
    requires forall i :: 0 <= i < |slots| ==> |slots[i]| == 1
    ensures |Concat(slots)| == |slots|
    ensures forall k :: 0 <= k < |slots| ==> Concat(slots)[k] == slots[k][0]
  {
    if slots != [] {
      var init := slots[..|slots| - 1];
      ConcatOfFilledSlots(init);
    }
  }

  /** Slots holding only upper-case letters give an upper-case guess. */
  lemma {:induction false} ConcatOfUpperSlots(slots: seq<string>)
    requires forall i :: 0 <= i < |slots| ==> AllUpper(slots[i])
    ensures AllUpper(Concat(slots))
  {
    if slots != [] {
      ConcatOfUpperSlots(slots[..|slots| - 1]);
    }
  }

  /** Empty slots give the empty guess. */
  lemma {:induction false} ConcatOfEmptySlots(slots: seq<string>)
    requires forall i :: 0 <= i < |slots| ==> slots[i] == ""
    ensures Concat(slots) == ""
  {
    if slots != [] {
      ConcatOfEmptySlots(slots[..|slots| - 1]);
    }
  }

  /** The loop that opens `makeAGuess` in both variants: each slot's value
      is appended to the guess and the slot is emptied. */
  method TakeGuess(letters: array<string>) returns (guess: string)
    modifies letters
    ensures guess == Concat(old(letters[..]))
    ensures forall j :: 0 <= j < letters.Length ==> letters[j] == ""
  {
    guess := "";
    for k := 0 to letters.Length
      invariant guess == Concat(old(letters[..])[..k])
      invariant forall j :: 0 <= j < k ==> letters[j] == ""
      invariant forall j :: k <= j < letters.Length ==> letters[j] == old(letters[j])
    {
      assert old(letters[..])[..k + 1][..k] == old(letters[..])[..k];
      guess := guess + letters[k];
      letters[k] := "";
    }
    assert old(letters[..])[..letters.Length] == old(letters[..]);
  }
}
