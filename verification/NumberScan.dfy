/** Counting a number standing alone in a text (xtask/src/live_values.rs), by a scan that jumps. */
module NumberScan {
  import opened Wrappers

  /**
   A text is its characters. Its bytes are looked at only to find ASCII neighbours, which are never part
   of another character, and stepped over one at a time, which stays between characters exactly after an
   ASCII one.
   */
  predicate IsAscii(c: char) {
    c as int < 0x80
  }

  predicate IsDigit(c: char) {
    '0' <= c <= '9'
  }

  predicate IsHexDigit(c: char) {
    IsDigit(c) || 'a' <= c <= 'f'
  }

  predicate OccursAt(h: string, needle: string, at: nat) {
    at + |needle| <= |h| && h[at..at + |needle|] == needle
  }

  /** A hexadecimal digit on either side. */
  predicate Touched(h: string, needle: string, at: nat)
    requires OccursAt(h, needle, at)
  {
    (at > 0 && IsHexDigit(h[at - 1])) || (at + |needle| < |h| && IsHexDigit(h[at + |needle|]))
  }

  /** The needle occurs here with no hexadecimal digit on either side. */
  predicate StandsAloneAt(h: string, needle: string, at: nat) {
    OccursAt(h, needle, at) && !Touched(h, needle, at)
  }

  /** How many positions from one up to another the needle stands alone at. */
  function StandingAlone(h: string, needle: string, from: nat, until: nat): nat
    requires from <= until
    decreases until - from
  {
    if from == until then 0
    else (if StandsAloneAt(h, needle, from) then 1 else 0) + StandingAlone(h, needle, from + 1, until)
  }

  /**
   What the jumping scan counts: it goes on after a hit it accepts and one byte into a hit it rejects,
   where it stops if that byte is inside a character.
   */
  function Jumped(h: string, needle: string, from: nat): nat
    requires needle != []
    decreases |h| - from
  {
    if from + |needle| > |h| then 0
    else if !OccursAt(h, needle, from) then Jumped(h, needle, from + 1)
    else if !Touched(h, needle, from) then 1 + Jumped(h, needle, from + |needle|)
    else if IsAscii(needle[0]) then Jumped(h, needle, from + 1)
    else 0
  }

  /** The first occurrence from a position on. */
  method Find(h: string, needle: string, from: nat) returns (hit: Option<nat>)
    requires from <= |h|
    ensures hit.Some? ==> from <= hit.value && OccursAt(h, needle, hit.value)
    ensures forall at :: from <= at <= |h| && (hit.Some? ==> at < hit.value) ==> !OccursAt(h, needle, at)
  {
    var at := from;
    while at + |needle| <= |h|
      invariant from <= at <= |h| + 1
      invariant forall k :: from <= k < at ==> !OccursAt(h, needle, k)
    {
      if h[at..at + |needle|] == needle { return Some(at); }
      at := at + 1;
    }
    return None;
  }

  /** Between hits there is nothing to count. */
  lemma {:induction false} JumpsToTheHit(h: string, needle: string, from: nat, at: nat)
    requires needle != [] && from <= at && forall k :: from <= k < at ==> !OccursAt(h, needle, k)
    requires OccursAt(h, needle, at) || at > |h|
    ensures Jumped(h, needle, from) == Jumped(h, needle, at)
    decreases at - from
  {
    if from < at && from + |needle| <= |h| { JumpsToTheHit(h, needle, from + 1, at); }
  }

  method OccurrencesAsANumber(h: string, needle: string) returns (found: nat)
    ensures found == if needle == [] then 0 else Jumped(h, needle, 0)
    ensures IsNumber(needle) ==> found == StandingAlone(h, needle, 0, |h| + 1)
    ensures IsSpelledNumber(needle) ==> found == |PlacesApart(h, needle)|
    ensures needle != [] ==> found <= |PlacesApart(h, needle)|
  {
    if needle == [] { return 0; }
    found := 0;
    var from := 0;
    while true
      invariant from <= |h| && found + Jumped(h, needle, from) == Jumped(h, needle, 0)
      decreases |h| - from
    {
      var hit := Find(h, needle, from);
      if hit.None? {
        JumpsToTheHit(h, needle, from, |h| + 1);
        break;
      }
      var at := hit.value;
      var end := at + |needle|;
      JumpsToTheHit(h, needle, from, at);
      if (at > 0 && IsHexDigit(h[at - 1])) || (end < |h| && IsHexDigit(h[end])) {
        if !IsAscii(needle[0]) { break; }
        from := at + 1;
      } else {
        found := found + 1;
        from := end;
      }
    }
    SpelledNumbersAre(needle);
    CountIsOfPlaces(h, needle);
    JumpingCountsNoMore(h, needle, 0);
    if IsNumber(needle) {
      NumbersCannotTouch(needle);
      JumpingLosesNothing(h, needle, 0);
    }
  }

  // The same with its neighbours spelled out

  predicate IsSpelledNumber(needle: string) {
    needle != [] && (needle[0] == '-' || needle[0] in "0123456789")
    && forall i :: 1 <= i < |needle| ==> needle[i] in "0123456789"
  }

  /** The needle is here, with no character of a hexadecimal number before it or after it. */
  predicate StandsApart(h: string, needle: string, at: nat) {
    at + |needle| <= |h| && h[at..at + |needle|] == needle
    && (at > 0 ==> h[at - 1] !in "0123456789abcdef")
    && (at + |needle| < |h| ==> h[at + |needle|] !in "0123456789abcdef")
  }

  function PlacesApart(h: string, needle: string): set<nat> {
    set at: nat | at <= |h| && StandsApart(h, needle, at)
  }

  lemma CharactersAre(c: char)
    ensures IsDigit(c) <==> c in "0123456789"
    ensures IsHexDigit(c) <==> c in "0123456789abcdef"
  {
    var hex := "0123456789abcdef";
    assert hex[10] == 'a' && hex[11] == 'b' && hex[12] == 'c' && hex[13] == 'd' && hex[14] == 'e' && hex[15] == 'f';
    var digits := "0123456789";
    assert forall i :: 0 <= i < 10 ==> hex[i] == digits[i];
    if IsDigit(c) { assert digits[c as int - '0' as int] == c; }
  }

  lemma SpelledNumbersAre(needle: string)
    ensures IsNumber(needle) <==> IsSpelledNumber(needle)
  {
    forall c ensures IsDigit(c) <==> c in "0123456789" { CharactersAre(c); }
  }

  /** A hit with a hexadecimal character beside it never counts, one without always stands alone. */
  lemma ApartIsAlone(h: string, needle: string, at: nat)
    ensures StandsAloneAt(h, needle, at) <==> StandsApart(h, needle, at)
    ensures OccursAt(h, needle, at) ==> (Touched(h, needle, at) <==> !StandsApart(h, needle, at))
  {
    hide IsHexDigit, IsDigit;
    if OccursAt(h, needle, at) {
      if at > 0 { CharactersAre(h[at - 1]); }
      if at + |needle| < |h| { CharactersAre(h[at + |needle|]); }
    }
  }

  lemma {:induction false} CountFromIsOfPlaces(h: string, needle: string, from: nat)
    requires from <= |h| + 1
    ensures StandingAlone(h, needle, from, |h| + 1) == |set at: nat | from <= at <= |h| && StandsApart(h, needle, at)|
    decreases |h| + 1 - from
  {
    hide StandsApart, StandsAloneAt;
    var here := set at: nat | from <= at <= |h| && StandsApart(h, needle, at);
    if from == |h| + 1 {
      assert here == {};
    } else {
      CountFromIsOfPlaces(h, needle, from + 1);
      ApartIsAlone(h, needle, from);
      var later := set at: nat | from + 1 <= at <= |h| && StandsApart(h, needle, at);
      assert here == if StandsApart(h, needle, from) then later + {from} else later;
    }
  }

  lemma CountIsOfPlaces(h: string, needle: string)
    ensures StandingAlone(h, needle, 0, |h| + 1) == |PlacesApart(h, needle)|
  {
    hide StandsApart, StandingAlone;
    CountFromIsOfPlaces(h, needle, 0);
    assert PlacesApart(h, needle) == set at: nat | 0 <= at <= |h| && StandsApart(h, needle, at);
  }

  /** Whatever the needle, no place is counted that is not apart, and none twice. */
  lemma {:induction false} JumpingCountsNoMore(h: string, needle: string, from: nat)
    requires from <= |h| + 1
    ensures needle != [] ==> Jumped(h, needle, from) <= StandingAlone(h, needle, from, |h| + 1)
    decreases |h| + 1 - from
  {
    hide Touched;
    if needle != [] && from + |needle| <= |h| {
      if StandsAloneAt(h, needle, from) {
        JumpingCountsNoMore(h, needle, from + |needle|);
        CountsFrom(h, needle, from + |needle|, from + 1);
      } else {
        JumpingCountsNoMore(h, needle, from + 1);
      }
    }
  }

  /** The needles counted exactly, with their characters spelled out. */
  lemma CountableIs(needle: string)
    requires needle != []
    ensures Countable(needle) <==>
      needle[0] as int < 128
      && forall k :: 0 < k < |needle| ==>
           !(needle[k..] == needle[..|needle| - k]
             && needle[k - 1] !in "0123456789abcdef" && needle[|needle| - k] !in "0123456789abcdef")
  {
    hide IsHexDigit, IsDigit;
    forall k | 0 < k < |needle|
      ensures TouchesItself(needle, k) <==>
        needle[k..] == needle[..|needle| - k]
        && needle[k - 1] !in "0123456789abcdef" && needle[|needle| - k] !in "0123456789abcdef"
    {
      CharactersAre(needle[k - 1]);
      CharactersAre(needle[|needle| - k]);
    }
  }

  /** What the scan leaves out: an underscore with a decimal digit on either side, and nothing else. */
  lemma StripsExactly(h: string, i: nat)
    requires i < |h|
    ensures Stripped(h, 0) == []
    ensures Stripped(h, i + 1) == Stripped(h, i)
      + (if h[i] == '_' && 0 < i < |h| - 1 && h[i - 1] in "0123456789" && h[i + 1] in "0123456789" then [] else [h[i]])
  {
    hide IsDigit;
    if i > 0 { CharactersAre(h[i - 1]); }
    if i + 1 < |h| { CharactersAre(h[i + 1]); }
  }

  // Exactly which needles are counted exactly

  /** The needle can stand alone twice with the second beginning inside the first. */
  predicate TouchesItself(needle: string, k: nat)
    requires 0 < k < |needle|
  {
    needle[k..] == needle[..|needle| - k] && !IsHexDigit(needle[k - 1]) && !IsHexDigit(needle[|needle| - k])
  }

  /** It begins with an ASCII character and cannot stand alone inside itself. */
  predicate Countable(needle: string)
    requires needle != []
  {
    IsAscii(needle[0]) && forall k :: 0 < k < |needle| ==> !TouchesItself(needle, k)
  }

  /** An optional minus sign and digits. */
  predicate IsNumber(needle: string) {
    needle != []
    && (needle[0] == '-' || IsDigit(needle[0]))
    && forall i :: 1 <= i < |needle| ==> IsDigit(needle[i])
  }

  lemma NumbersCannotTouch(needle: string)
    requires IsNumber(needle)
    ensures Countable(needle)
  {
    forall k | 0 < k < |needle| ensures !TouchesItself(needle, k) {
      assert IsDigit(needle[|needle| - k]);
    }
  }

  /** An occurrence standing alone inside another makes the needle touch itself. */
  lemma SecondTouches(h: string, needle: string, at: nat, k: nat)
    requires StandsAloneAt(h, needle, at) && 0 < k < |needle|
    ensures StandsAloneAt(h, needle, at + k) ==> TouchesItself(needle, k)
  {
    var n := |needle|;
    if StandsAloneAt(h, needle, at + k) {
      var first, second := h[at..at + n], h[at + k..at + k + n];
      assert first[k..] == second[..n - k];
      assert needle[k - 1] == first[k - 1] == h[at + k - 1];
      assert needle[n - k] == second[n - k] == h[at + n];
    }
  }

  lemma NoneInsideAHit(h: string, needle: string, at: nat)
    requires needle != [] && Countable(needle) && StandsAloneAt(h, needle, at)
    ensures forall inside :: at < inside < at + |needle| ==> !StandsAloneAt(h, needle, inside)
  {
    hide StandsAloneAt, TouchesItself;
    forall inside | at < inside < at + |needle| ensures !StandsAloneAt(h, needle, inside) {
      SecondTouches(h, needle, at, inside - at);
    }
  }

  lemma {:induction false} NoneInBetween(h: string, needle: string, from: nat, mid: nat, until: nat)
    requires from <= mid <= until
    requires forall at :: from <= at < mid ==> !StandsAloneAt(h, needle, at)
    ensures StandingAlone(h, needle, from, until) == StandingAlone(h, needle, mid, until)
    decreases mid - from
  {
    if from < mid { NoneInBetween(h, needle, from + 1, mid, until); }
  }

  /** Skipping past an accepted hit loses no occurrence, and a rejected hit hides none. */
  lemma {:induction false} JumpingLosesNothing(h: string, needle: string, from: nat)
    requires needle != [] && Countable(needle) && from <= |h| + 1
    ensures Jumped(h, needle, from) == StandingAlone(h, needle, from, |h| + 1)
    decreases |h| + 1 - from
  {
    hide Countable;
    var n := |needle|;
    if from + n > |h| {
      NoneInBetween(h, needle, from, |h| + 1, |h| + 1);
    } else if StandsAloneAt(h, needle, from) {
      NoneInsideAHit(h, needle, from);
      NoneInBetween(h, needle, from + 1, from + n, |h| + 1);
      JumpingLosesNothing(h, needle, from + n);
    } else {
      assert IsAscii(needle[0]) by { CountableIsAscii(needle); }
      JumpingLosesNothing(h, needle, from + 1);
    }
  }

  lemma CountableIsAscii(needle: string)
    requires needle != [] && Countable(needle)
    ensures IsAscii(needle[0])
  {
  }

  /** Two places at which a needle stands alone are counted twice. */
  lemma CountsBoth(h: string, needle: string, a: nat, b: nat)
    requires a <= b <= |h| && StandsAloneAt(h, needle, a) && StandsAloneAt(h, needle, b)
    ensures StandingAlone(h, needle, 0, |h| + 1) >= if a == b then 1 else 2
  {
    CountsFrom(h, needle, b + 1, b);
    if a < b { CountsFrom(h, needle, b, a + 1); }
    CountsFrom(h, needle, a, 0);
  }

  lemma {:induction false} CountsFrom(h: string, needle: string, late: nat, early: nat)
    requires early <= late <= |h| + 1
    ensures StandingAlone(h, needle, early, |h| + 1) >= StandingAlone(h, needle, late, |h| + 1)
    decreases late - early
  {
    if early < late { CountsFrom(h, needle, late, early + 1); }
  }

  /** A rejected hit that starts with a longer character ends the scan before a good one. */
  lemma StopsInsideACharacter(needle: string)
    requires needle != [] && !IsAscii(needle[0])
    ensures var h := "0" + needle + "-" + needle; Jumped(h, needle, 0) != StandingAlone(h, needle, 0, |h| + 1)
  {
    var h, n := "0" + needle + "-" + needle, |needle|;
    assert h[0..n][0] == '0';
    assert h[1..1 + n] == needle && h[n + 2..n + 2 + n] == needle;
    assert Jumped(h, needle, 0) == Jumped(h, needle, 1) == 0;
    assert StandsAloneAt(h, needle, n + 2);
    CountsBoth(h, needle, n + 2, n + 2);
  }

  /** A needle overlapping itself, as one text. */
  lemma Overlap(needle: string, k: nat)
    requires 0 < k < |needle| && TouchesItself(needle, k)
    ensures var h := needle + needle[|needle| - k..];
      |h| == |needle| + k && StandsAloneAt(h, needle, 0) && StandsAloneAt(h, needle, k)
  {
    var n := |needle|;
    var h := needle + needle[n - k..];
    assert h[0..n] == needle;
    assert h[k..k + n] == needle[k..] + needle[n - k..];
    assert needle[..n - k] + needle[n - k..] == needle;
    assert h[k - 1] == needle[k - 1] && h[n] == needle[n - k];
  }

  /** Where one stands alone inside another, the second is jumped over. */
  lemma SkipsTheSecond(needle: string, k: nat)
    requires 0 < k < |needle| && TouchesItself(needle, k)
    ensures var h := needle + needle[|needle| - k..]; Jumped(h, needle, 0) != StandingAlone(h, needle, 0, |h| + 1)
  {
    hide TouchesItself, StandingAlone, OccursAt, Touched;
    var h := needle + needle[|needle| - k..];
    Overlap(needle, k);
    assert Jumped(h, needle, |needle|) == 0;
    assert Jumped(h, needle, 0) == 1 + Jumped(h, needle, |needle|);
    CountsBoth(h, needle, 0, k);
  }

  /** The scan counts a needle exactly, in every text, exactly when the needle is countable. */
  lemma CountsExactly(needle: string)
    requires needle != []
    ensures Countable(needle) <==> forall h: string :: Jumped(h, needle, 0) == StandingAlone(h, needle, 0, |h| + 1)
  {
    hide Jumped, StandingAlone, TouchesItself, IsAscii;
    if Countable(needle) {
      forall h: string ensures Jumped(h, needle, 0) == StandingAlone(h, needle, 0, |h| + 1) {
        JumpingLosesNothing(h, needle, 0);
      }
    } else if !IsAscii(needle[0]) {
      StopsInsideACharacter(needle);
    } else {
      var k :| 0 < k < |needle| && TouchesItself(needle, k);
      SkipsTheSecond(needle, k);
    }
  }

  // Digit separators, removed before a number is looked for

  const UNDERSCORE: char := '_'

  /** An underscore between two digits. */
  predicate IsSeparator(h: string, i: nat)
    requires i < |h|
  {
    h[i] == UNDERSCORE && 0 < i < |h| - 1 && IsDigit(h[i - 1]) && IsDigit(h[i + 1])
  }

  /** What is left of the first bytes of a text. */
  function Stripped(h: string, n: nat): string
    requires n <= |h|
  {
    if n == 0 then [] else Stripped(h, n - 1) + (if IsSeparator(h, n - 1) then [] else [h[n - 1]])
  }

  method StripDigitSeparators(h: string) returns (out: string)
    ensures out == Stripped(h, |h|)
  {
    out := [];
    for i := 0 to |h|
      invariant out == Stripped(h, i)
    {
      if h[i] == UNDERSCORE && i > 0 && IsDigit(h[i - 1]) && i + 1 < |h| && IsDigit(h[i + 1]) { continue; }
      out := out + [h[i]];
    }
  }

  predicate HasSeparator(h: string) {
    exists i :: 0 <= i < |h| && IsSeparator(h, i)
  }

  /** Removing separators in one pass never brings two digits together around another. */
  lemma {:induction false} NoSeparatorLeft(h: string, n: nat)
    requires n <= |h|
    ensures !HasSeparator(Stripped(h, n))
  {
    if n > 0 {
      NoSeparatorLeft(h, n - 1);
      var before, after := Stripped(h, n - 1), Stripped(h, n);
      forall i | 0 <= i < |after| ensures !IsSeparator(after, i) {
        if i < |before| { assert !IsSeparator(before, i); }
        if 0 < i == |before| - 1 && before[i] == UNDERSCORE { LastTwo(h, n - 1); }
      }
    }
  }

  /** Where the stripped prefix ends in an underscore, its last two bytes are those of the text. */
  lemma LastTwo(h: string, n: nat)
    requires n <= |h| && |Stripped(h, n)| >= 2
    requires var p := Stripped(h, n); p[|p| - 1] == UNDERSCORE
    ensures n >= 2 && h[n - 1] == UNDERSCORE && !IsSeparator(h, n - 1)
    ensures var p := Stripped(h, n); p[|p| - 2] == h[n - 2]
  {
    EndsAsTheText(h, n);
    EndsAsTheText(h, n - 1);
  }

  /** A prefix ends in the text's own last byte, or in the digit before a separator just removed. */
  lemma EndsAsTheText(h: string, n: nat)
    requires 0 < n <= |h|
    ensures var p := Stripped(h, n);
      p != [] && (if IsSeparator(h, n - 1) then IsDigit(p[|p| - 1]) else p[|p| - 1] == h[n - 1])
  {
    if IsSeparator(h, n - 1) { assert !IsSeparator(h, n - 2); }
  }

  /** Everything but underscores, in order. */
  function Spelled(h: string): string {
    if h == [] then [] else Spelled(h[..|h| - 1]) + (if h[|h| - 1] == UNDERSCORE then [] else [h[|h| - 1]])
  }

  lemma SpelledNext(h: string, b: char)
    ensures Spelled(h + [b]) == Spelled(h) + (if b == UNDERSCORE then [] else [b])
  {
    assert (h + [b])[..|h|] == h;
  }

  /** Only underscores are removed, so what a text spells is unchanged. */
  lemma {:induction false} StrippingKeepsTheSpelling(h: string, n: nat)
    requires n <= |h|
    ensures Spelled(Stripped(h, n)) == Spelled(h[..n])
  {
    hide Spelled;
    if n == 0 {
      assert Stripped(h, 0) == h[..0];
    } else {
      StrippingKeepsTheSpelling(h, n - 1);
      var before := Stripped(h, n - 1);
      assert Stripped(h, n) == if IsSeparator(h, n - 1) then before else before + [h[n - 1]];
      SpelledNext(before, h[n - 1]);
      assert h[..n] == h[..n - 1] + [h[n - 1]];
      SpelledNext(h[..n - 1], h[n - 1]);
    }
  }

  /** A literal: digits, and underscores that stand singly between them. */
  predicate IsSeparated(h: string) {
    forall i :: 0 <= i < |h| ==> IsDigit(h[i]) || IsSeparator(h, i)
  }

  /** A number written with separators is left as its digits alone. */
  lemma {:induction false} SeparatedNumberIsFound(h: string, n: nat)
    requires n <= |h| && IsSeparated(h)
    ensures Stripped(h, n) == Spelled(h[..n]) && forall k :: 0 <= k < |Stripped(h, n)| ==> IsDigit(Stripped(h, n)[k])
  {
    if n > 0 {
      SeparatedNumberIsFound(h, n - 1);
      assert h[..n][..n - 1] == h[..n - 1];
    }
  }

  /** The stripped prefix of a text, up to the number, through it, and one character past it. */
  lemma {:induction false} PrefixAlone(before: string, n: string, after: string, k: nat)
    requires k <= |before| && (before != [] ==> before[|before| - 1] != UNDERSCORE)
    ensures Stripped(before + n + after, k) == Stripped(before, k)
  {
    var h := before + n + after;
    if k > 0 {
      PrefixAlone(before, n, after, k - 1);
      assert IsSeparator(h, k - 1) <==> IsSeparator(before, k - 1);
    }
  }

  lemma {:induction false} NumberAlone(before: string, n: string, after: string, k: nat)
    requires k <= |n| && IsSeparated(n) && (before != [] ==> before[|before| - 1] != UNDERSCORE)
    ensures Stripped(before + n + after, |before| + k) == Stripped(before, |before|) + Stripped(n, k)
  {
    var h := before + n + after;
    if k == 0 {
      PrefixAlone(before, n, after, |before|);
    } else {
      NumberAlone(before, n, after, k - 1);
      assert h[|before| + k - 1] == n[k - 1];
      assert IsSeparator(h, |before| + k - 1) <==> IsSeparator(n, k - 1);
    }
  }

  lemma {:induction false} StrippedGrows(h: string, m: nat, n: nat)
    requires m <= n <= |h|
    ensures Stripped(h, m) <= Stripped(h, n)
  {
    if m < n { StrippedGrows(h, m, n - 1); }
  }

  /** What a number could run on into: a hexadecimal digit or an underscore. */
  predicate RunsOn(c: char) {
    IsHexDigit(c) || c == UNDERSCORE
  }

  /** The stripped text is the stripped lead, the number's digits, and a tail that begins as the text goes on. */
  lemma StrippedInParts(before: string, n: string, after: string) returns (tail: string)
    requires IsSeparated(n)
    requires before != [] ==> before[|before| - 1] != UNDERSCORE
    requires after != [] ==> after[0] != UNDERSCORE
    ensures var h := before + n + after; Stripped(h, |h|) == Stripped(before, |before|) + Stripped(n, |n|) + tail
    ensures if after == [] then tail == [] else tail != [] && tail[0] == after[0]
  {
    hide IsSeparated;
    var h := before + n + after;
    NumberAlone(before, n, after, |n|);
    var m := |before| + |n|;
    var through, text := Stripped(h, m), Stripped(h, |h|);
    StrippedGrows(h, m, |h|);
    tail := text[|through|..];
    if after != [] {
      assert h[m] == after[0] && !IsSeparator(h, m);
      assert Stripped(h, m + 1) == through + [after[0]];
      StrippedGrows(h, m + 1, |h|);
    }
  }

  lemma StandsInside(lead: string, needle: string, tail: string)
    requires lead != [] ==> !IsHexDigit(lead[|lead| - 1])
    requires tail != [] ==> !IsHexDigit(tail[0])
    ensures StandsAloneAt(lead + needle + tail, needle, |lead|)
  {
    var text := lead + needle + tail;
    assert text[|lead|..|lead| + |needle|] == needle;
  }

  /**
   A number written with separators cannot evade the count: wherever it stands in a text apart from hex
   digits and underscores, the scan of the stripped text finds its plain spelling there.
   */
  lemma SeparatedNumberIsCounted(before: string, n: string, after: string)
    requires n != [] && IsSeparated(n)
    requires before != [] ==> !RunsOn(before[|before| - 1])
    requires after != [] ==> !RunsOn(after[0])
    ensures var h := before + n + after;
      var text := Stripped(h, |h|);
      IsNumber(Spelled(n)) && StandsAloneAt(text, Spelled(n), |Stripped(before, |before|)|)
      && StandingAlone(text, Spelled(n), 0, |text| + 1) >= 1
  {
    hide Spelled, StandingAlone, StandsAloneAt, Stripped, IsSeparated;
    SeparatedNumberIsFound(n, |n|);
    assert n[..|n|] == n;
    NotEmptied(n);
    LeadEnds(before);
    var tail := StrippedInParts(before, n, after);
    var lead := Stripped(before, |before|);
    StandsInside(lead, Spelled(n), tail);
    CountsBoth(lead + Spelled(n) + tail, Spelled(n), |lead|, |lead|);
  }

  lemma NotEmptied(n: string)
    requires n != [] && IsSeparated(n)
    ensures Stripped(n, |n|) != []
  {
    assert !IsSeparator(n, 0);
    StrippedGrows(n, 1, |n|);
    assert Stripped(n, 1) == Stripped(n, 0) + [n[0]];
  }

  /** A text that does not end in an underscore keeps its last character. */
  lemma LeadEnds(before: string)
    requires before != [] ==> before[|before| - 1] != UNDERSCORE
    ensures var lead := Stripped(before, |before|);
      (lead == [] <==> before == []) && (lead != [] ==> lead[|lead| - 1] == before[|before| - 1])
  {
    if before != [] { assert !IsSeparator(before, |before| - 1); }
  }
}
