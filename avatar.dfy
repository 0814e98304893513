/** The avatar's fallback: initials from the name and a background colour
    picked by a string hash of the name. */
module Avatar {
  import opened Text

  // ---------------------------------------------------------------------
  // Initials
  // ---------------------------------------------------------------------

  /** `parts.map(part => part[0]).join('')`: an empty part gives
      `undefined`, which `join` writes as nothing. */
  function FirstChars(parts: seq<string>): string {
    if parts == [] then ""
    else
      var last := parts[|parts| - 1];
      FirstChars(parts[..|parts| - 1]) + (if last == "" then "" else [last[0]])
  }

  /** `getInitials`: the first characters of the space-separated parts,
      upper-cased, at most two of them. */
  function Initials(name: string): (initials: string)
    ensures |initials| <= 2
    ensures forall i | 0 <= i < |initials| :: !('a' <= initials[i] <= 'z')
  {
    var all := Upper(FirstChars(Split(name, ' ')));
    if |all| <= 2 then all else all[..2]
  }

  /** Position `i` of `s` starts a word: a non-space at the start or after a space. */
  predicate IsWordStart(s: string, i: int)
    requires 0 <= i < |s|
  {
    s[i] != ' ' && (i == 0 || s[i - 1] == ' ')
  }

  /** The characters that start a word, in order. */
  function WordStarts(s: string): string {
    if s == [] then ""
    else WordStarts(s[..|s| - 1]) + (if IsWordStart(s, |s| - 1) then [s[|s| - 1]] else "")
  }

  /** The last part of a split is empty exactly when the string is empty
      or ends with the separator. */
  lemma SplitLastPart(s: string, sep: char)
    ensures var parts := Split(s, sep);
      parts[|parts| - 1] == "" <==> s == [] || s[|s| - 1] == sep
  {
  }

  /** The first characters of the parts of `s` are the characters that
      start a word of `s`. */
  lemma {:induction false} FirstCharsOfSplit(s: string)
    ensures FirstChars(Split(s, ' ')) == WordStarts(s)
  {
    if s != [] {
      var prefix, c := s[..|s| - 1], s[|s| - 1];
      FirstCharsOfSplit(prefix);
      var prev := Split(prefix, ' ');
      if c != ' ' {
        FirstCharsExtendLast(prev, c);
        SplitLastPart(prefix, ' ');
        assert IsWordStart(s, |s| - 1) <==> prev[|prev| - 1] == "" by {
          if prefix != [] {
            assert s[|s| - 2] == prefix[|prefix| - 1];
          }
        }
      } else {
        FirstCharsNewPart(prev);
      }
    }
  }

  /** A character added to the last part counts only when that part was empty. */
  lemma FirstCharsExtendLast(prev: seq<string>, c: char)
    requires |prev| >= 1
    ensures var m := |prev|;
      FirstChars(prev[..m - 1] + [prev[m - 1] + [c]]) ==
      FirstChars(prev) + (if prev[m - 1] == "" then [c] else "")
  {
    var m := |prev|;
    var front, last := prev[..m - 1], prev[m - 1];
    var parts := front + [last + [c]];
    assert parts[..|parts| - 1] == front;
    assert prev[..|prev| - 1] == front;
    if last == "" {
      assert FirstChars(parts) == FirstChars(front) + [c];
      assert FirstChars(prev) == FirstChars(front);
    } else {
      assert FirstChars(parts) == FirstChars(front) + [last[0]];
      assert FirstChars(prev) == FirstChars(front) + [last[0]];
    }
  }

  /** A new empty part adds nothing. */
  lemma FirstCharsNewPart(prev: seq<string>)
    ensures FirstChars(prev + [""]) == FirstChars(prev)
  {
    assert (prev + [""])[..|prev|] == prev;
  }

  /** The initials are the first two word-start characters of the name,
      upper-cased: one letter per word, in order, blank runs adding nothing. */
  lemma InitialsAreWordStarts(name: string)
    ensures var starts := Upper(WordStarts(name));
      Initials(name) == if |starts| <= 2 then starts else starts[..2]
  {
    FirstCharsOfSplit(name);
  }

  // ---------------------------------------------------------------------
  // Colour
  // ---------------------------------------------------------------------

  const COLORS: seq<string> := [
    "#3b82f6", "#8b5cf6", "#10b981", "#f59e0b",
    "#ef4444", "#6366f1", "#14b8a6", "#ec4899"
  ]

  /** ECMAScript ToInt32 of an integer: its 32-bit two's-complement value. */
  function ToInt32(x: int): (r: int)
    ensures -0x8000_0000 <= r < 0x8000_0000
    ensures (x - r) % 0x1_0000_0000 == 0
  {
    var m := x % 0x1_0000_0000;
    if m >= 0x8000_0000 then m - 0x1_0000_0000 else m
  }

  /** `acc << 5`: shift the 32-bit value of `acc`, wrapping to 32 bits. */
  function ShiftLeft5(acc: int): int {
    ToInt32(ToInt32(acc) * 32)
  }

  /** The `reduce` over the name's characters:
      `charCode + ((acc << 5) - acc)` from 0. Only the shift wraps; the
      subtraction and the addition are exact. */
  function Hash(name: string): int {
    if name == [] then 0
    else
      var acc := Hash(name[..|name| - 1]);
      (name[|name| - 1] as int) + (ShiftLeft5(acc) - acc)
  }

  /** `getColorFromName`: the palette entry at `|hash| % 8`. */
  function ColorFromName(name: string): (color: string)
    ensures color in COLORS
    ensures name == "" ==> color == "#3b82f6"
  {
    var hash := Hash(name);
    COLORS[(if hash < 0 then -hash else hash) % |COLORS|]
  }

  /** The polynomial string hash with multiplier 31, without wrapping. */
  function Poly31(name: string): int {
    if name == [] then 0 else 31 * Poly31(name[..|name| - 1]) + (name[|name| - 1] as int)
  }

  /** The multiple `k` of 2^32 by which the hash and the polynomial hash differ. */
  lemma {:induction false} HashPoly31Gap(name: string) returns (k: int)
    ensures Hash(name) - Poly31(name) == k * 0x1_0000_0000
  {
    if name == [] {
      k := 0;
    } else {
      var prefix := name[..|name| - 1];
      var kp := HashPoly31Gap(prefix);
      var acc := Hash(prefix);
      var t := ToInt32(acc);
      var shifted := ToInt32(t * 32);
      var q1 := (acc - t) / 0x1_0000_0000;
      assert acc - t == q1 * 0x1_0000_0000;
      var q2 := (t * 32 - shifted) / 0x1_0000_0000;
      assert t * 32 - shifted == q2 * 0x1_0000_0000;
      k := 31 * kp - 32 * q1 - q2;
    }
  }

  /** Since `(acc << 5) - acc` is `31 * acc` modulo 2^32, the hash agrees
      modulo 2^32 with the multiplier-31 polynomial hash of the name. */
  lemma HashIsPoly31ModWord(name: string)
    ensures (Hash(name) - Poly31(name)) % 0x1_0000_0000 == 0
  {
    var k := HashPoly31Gap(name);
    WordMultiple(Hash(name) - Poly31(name), k);
  }

  lemma WordMultiple(d: int, k: int)
    requires d == k * 0x1_0000_0000
    ensures d % 0x1_0000_0000 == 0
  {
  }

  /** The hash grows by at most 2^31 plus one character code per character,
      so for names shorter than four million characters every value stays
      within the integers a double holds exactly. */
  lemma {:induction false} HashBound(name: string)
    ensures -|name| * 0x8011_0000 <= Hash(name) <= |name| * 0x8011_0000
  {
    if name != [] {
      HashBound(name[..|name| - 1]);
    }
  }
}
