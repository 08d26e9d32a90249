/** The generated parts of a new profile: initials from the display name,
    a colour from the fixed palette and a username derived from the name.
    `Math.random()` is passed in as `random`, a real in [0, 1). */
module Avatar {
  import opened Text

  /** The eight avatar colours. */
  const AvatarColors: seq<string> := [
    "hsl(210, 70%, 50%)",
    "hsl(280, 70%, 50%)",
    "hsl(350, 70%, 50%)",
    "hsl(150, 70%, 50%)",
    "hsl(30, 70%, 50%)",
    "hsl(180, 70%, 50%)",
    "hsl(320, 70%, 50%)",
    "hsl(60, 70%, 50%)"
  ]

  /** `generateInitials`: the words of the trimmed name, split on white-space
      runs; one word gives its first two characters, several give the first
      character of the first and of the last word; upper-cased. */
  function GenerateInitials(name: string): (r: string)
    ensures |r| <= 2
  {
    var t := Trim(name);
    var parts := SplitWs(t);
    if |parts| == 1 then ToUpper(parts[0][..Min(2, |parts[0]|)])
    else
      SplitTrimmedNonEmpty(t);
      ToUpper([parts[0][0], parts[|parts| - 1][0]])
  }

  /** Splitting a trimmed, non-empty string yields no empty piece. */
  lemma SplitTrimmedNonEmpty(t: string)
    requires t == [] || (!IsSpace(t[0]) && !IsSpace(t[|t| - 1]))
    requires |SplitWs(t)| != 1
    ensures forall k :: 0 <= k < |SplitWs(t)| ==> SplitWs(t)[k] != []
  {
    if t != [] {
      SplitFromNonEmpty(t, []);
    }
  }

  lemma {:induction false} SplitFromNonEmpty(s: string, cur: string)
    requires s != [] ==> !IsSpace(s[|s| - 1])
    requires s == [] || IsSpace(s[0]) ==> cur != []
    ensures forall k :: 0 <= k < |SplitFrom(s, cur)| ==> SplitFrom(s, cur)[k] != []
    decreases |s|
  {
    if s == [] {
    } else if IsSpace(s[0]) {
      var rest := TrimStart(s);
      assert rest[|rest| - 1] == s[|s| - 1];
      SplitFromNonEmpty(rest, []);
    } else {
      SplitFromNonEmpty(s[1..], cur + [s[0]]);
    }
  }

  /** The words `ws` separated by the white-space runs `seps`. */
  function Join(ws: seq<string>, seps: seq<string>): string
    requires |ws| >= 1 && |seps| == |ws| - 1
  {
    if |ws| == 1 then ws[0] else ws[0] + seps[0] + Join(ws[1..], seps[1..])
  }

  predicate IsGap(g: string) { g != [] && AllSpaces(g) }

  /** Reading a word moves it onto the piece being built. */
  lemma {:induction false} SplitWord(w: string, rest: string, cur: string)
    requires NoSpaces(w)
    ensures SplitFrom(w + rest, cur) == SplitFrom(rest, cur + w)
    decreases |w|
  {
    if w != [] {
      assert (w + rest)[0] == w[0];
      assert (w + rest)[1..] == w[1..] + rest;
      SplitWord(w[1..], rest, cur + [w[0]]);
      assert cur + [w[0]] + w[1..] == cur + w;
    } else {
      assert w + rest == rest && cur + w == cur;
    }
  }

  /** A white-space run ends the piece being built. */
  lemma SplitGap(g: string, rest: string, cur: string)
    requires IsGap(g) && (rest == [] || !IsSpace(rest[0]))
    ensures SplitFrom(g + rest, cur) == [cur] + SplitFrom(rest, [])
  {
    assert (g + rest)[0] == g[0];
    TrimStartGap(g, rest);
  }

  lemma {:induction false} TrimStartGap(g: string, rest: string)
    requires AllSpaces(g) && (rest == [] || !IsSpace(rest[0]))
    ensures TrimStart(g + rest) == rest
    decreases |g|
  {
    if g != [] {
      assert (g + rest)[1..] == g[1..] + rest;
      TrimStartGap(g[1..], rest);
    } else {
      assert g + rest == rest;
    }
  }

  /** Splitting words joined by white-space runs gives the words back. */
  lemma {:induction false} SplitJoin(ws: seq<string>, seps: seq<string>, cur: string)
    requires |ws| >= 1 && |seps| == |ws| - 1
    requires forall k :: 0 <= k < |ws| ==> ws[k] != [] && NoSpaces(ws[k])
    requires forall k :: 0 <= k < |seps| ==> IsGap(seps[k])
    ensures SplitFrom(Join(ws, seps), cur) == [cur + ws[0]] + ws[1..]
    decreases |ws|
  {
    if |ws| == 1 {
      SplitWord(ws[0], [], cur);
      assert ws[0] + [] == ws[0];
    } else {
      var rest := Join(ws[1..], seps[1..]);
      assert rest == ws[1] || IsPrefix(ws[1], rest) by {
        JoinStartsWithWord(ws[1..], seps[1..]);
      }
      assert ws[0] + seps[0] + rest == ws[0] + (seps[0] + rest);
      SplitWord(ws[0], seps[0] + rest, cur);
      JoinStartsWithWord(ws[1..], seps[1..]);
      SplitGap(seps[0], rest, cur + ws[0]);
      SplitJoin(ws[1..], seps[1..], []);
      assert [] + ws[1] == ws[1];
      assert [ws[1]] + ws[2..] == ws[1..];
    }
  }

  lemma {:induction false} JoinStartsWithWord(ws: seq<string>, seps: seq<string>)
    requires |ws| >= 1 && |seps| == |ws| - 1
    requires forall k :: 0 <= k < |ws| ==> ws[k] != [] && NoSpaces(ws[k])
    requires forall k :: 0 <= k < |seps| ==> IsGap(seps[k])
    ensures var j := Join(ws, seps); j != [] && !IsSpace(j[0]) && !IsSpace(j[|j| - 1])
    ensures ws[0] != [] && Join(ws, seps)[0] == ws[0][0]
    decreases |ws|
  {
    if |ws| > 1 {
      JoinStartsWithWord(ws[1..], seps[1..]);
      var rest := Join(ws[1..], seps[1..]);
      assert Join(ws, seps) == ws[0] + (seps[0] + rest);
    } else {
      assert ws[0][|ws[0]| - 1] in ws[0];
      assert !IsSpace(ws[0][0]);
    }
  }

  /** Trimming removes white-space padding and nothing else. */
  lemma TrimPadding(a: string, s: string, b: string)
    requires AllSpaces(a) && AllSpaces(b)
    requires s != [] && !IsSpace(s[0]) && !IsSpace(s[|s| - 1])
    ensures Trim(a + s + b) == s
  {
    assert a + s + b == a + (s + b);
    TrimStartGap(a, s + b);
    TrimEndGap(s, b);
  }

  lemma {:induction false} TrimEndGap(s: string, b: string)
    requires AllSpaces(b) && s != [] && !IsSpace(s[|s| - 1])
    ensures TrimEnd(s + b) == s
    decreases |b|
  {
    if b == [] {
      assert s + b == s;
    } else {
      assert (s + b)[..|s + b| - 1] == s + b[..|b| - 1];
      TrimEndGap(s, b[..|b| - 1]);
    }
  }

  /** The words of a padded sequence of words are those words. */
  lemma WordsOfPadded(a: string, ws: seq<string>, seps: seq<string>, b: string)
    requires AllSpaces(a) && AllSpaces(b)
    requires |ws| >= 1 && |seps| == |ws| - 1
    requires forall k :: 0 <= k < |ws| ==> ws[k] != [] && NoSpaces(ws[k])
    requires forall k :: 0 <= k < |seps| ==> IsGap(seps[k])
    ensures SplitWs(Trim(a + Join(ws, seps) + b)) == ws
  {
    var j := Join(ws, seps);
    JoinStartsWithWord(ws, seps);
    TrimPadding(a, j, b);
    assert Trim(a + j + b) == j;
    SplitJoin(ws, seps, []);
    assert SplitWs(j) == SplitFrom(j, []);
    ConsFirst(ws);
  }

  /** `[[] + ws[0]] + ws[1..]` is `ws`. */
  lemma ConsFirst(ws: seq<string>)
    requires |ws| >= 1
    ensures [[] + ws[0]] + ws[1..] == ws
  {
    assert [] + ws[0] == ws[0];
  }

  /** The initials of a padded sequence of words: one word gives its first
      two characters, several give the first letters of the first and the
      last word; neither the padding nor the width of the gaps matters. */
  lemma InitialsOfWords(a: string, ws: seq<string>, seps: seq<string>, b: string)
    requires AllSpaces(a) && AllSpaces(b)
    requires |ws| >= 1 && |seps| == |ws| - 1
    requires forall k :: 0 <= k < |ws| ==> ws[k] != [] && NoSpaces(ws[k])
    requires forall k :: 0 <= k < |seps| ==> IsGap(seps[k])
    ensures GenerateInitials(a + Join(ws, seps) + b)
         == if |ws| == 1 then ToUpper(ws[0][..Min(2, |ws[0]|)]) else ToUpper([ws[0][0], ws[|ws| - 1][0]])
  {
    WordsOfPadded(a, ws, seps, b);
    InitialsOfSplit(a + Join(ws, seps) + b, ws);
  }

  /** The initials depend only on the words of the trimmed name. */
  lemma InitialsOfSplit(name: string, ws: seq<string>)
    requires SplitWs(Trim(name)) == ws && |ws| >= 1
    requires forall k :: 0 <= k < |ws| ==> ws[k] != []
    ensures GenerateInitials(name)
         == if |ws| == 1 then ToUpper(ws[0][..Min(2, |ws[0]|)]) else ToUpper([ws[0][0], ws[|ws| - 1][0]])
  {
  }

  /** `generateAvatarColor`: the palette entry at `floor(random * 8)`. */
  function GenerateAvatarColor(random: real): (r: string)
    requires 0.0 <= random < 1.0
    ensures r in AvatarColors
  {
    var k := (random * |AvatarColors| as real).Floor;
    assert 0 <= k < |AvatarColors|;
    AvatarColors[k]
  }

  /** The base of a generated username: the lower-cased name without
      anything outside [a-z0-9], cut to 15 characters. */
  function UsernameBase(name: string): (r: string)
    ensures |r| <= 15
    ensures forall i :: 0 <= i < |r| ==> IsLowerAlnum(r[i])
  {
    var kept := Filter(ToLower(name), IsLowerAlnum);
    kept[..Min(15, |kept|)]
  }

  /** `generateUsername`: the base followed by `floor(random * 1000)` in decimal. */
  function GenerateUsername(name: string, random: real): (r: string)
    requires 0.0 <= random < 1.0
    ensures 1 <= |r| <= 18
    ensures forall i :: 0 <= i < |r| ==> IsLowerAlnum(r[i])
    ensures IsPrefix(UsernameBase(name), r)
    ensures forall i :: |UsernameBase(name)| <= i < |r| ==> IsDigit(r[i])
    ensures DigitsValue(r[|UsernameBase(name)|..]) == (random * 1000.0).Floor
  {
    var suffix := (random * 1000.0).Floor;
    assert 0 <= suffix < 1000;
    DecimalLength(suffix);
    var base := UsernameBase(name);
    assert (base + Decimal(suffix))[..|base|] == base;
    assert (base + Decimal(suffix))[|base|..] == Decimal(suffix);
    DigitsValueOfDecimal(suffix);
    base + Decimal(suffix)
  }

  /** A name made only of [a-z0-9] is its own base, cut to 15 characters. */
  lemma UsernameBaseOfLowerAlnum(name: string)
    requires forall i :: 0 <= i < |name| ==> IsLowerAlnum(name[i])
    ensures UsernameBase(name) == name[..Min(15, |name|)]
  {
    assert ToLower(name) == name;
    FilterKeepsAll(name, IsLowerAlnum);
  }

  /** One character gives its lower-case form when that is in [a-z0-9], and nothing otherwise. */
  lemma UsernameBaseOne(c: char)
    ensures UsernameBase([c]) == if IsLowerAlnum(ToLowerChar(c)) then [ToLowerChar(c)] else []
  {
    assert ToLower([c]) == [ToLowerChar(c)];
    FilterOne(ToLowerChar(c), IsLowerAlnum);
  }

  /** The base of a concatenation is the two bases joined and cut to 15
      characters; with UsernameBaseOne this fixes the base of every name. */
  lemma UsernameBaseAppend(a: string, b: string)
    ensures var j := UsernameBase(a) + UsernameBase(b);
            UsernameBase(a + b) == j[..Min(15, |j|)]
  {
    ToLowerAppend(a, b);
    FilterAppend(ToLower(a), ToLower(b), IsLowerAlnum);
    var fa := Filter(ToLower(a), IsLowerAlnum);
    var fb := Filter(ToLower(b), IsLowerAlnum);
    var j := UsernameBase(a) + UsernameBase(b);
    if |fa| >= 15 {
      assert (fa + fb)[..15] == fa[..15];
      assert j[..15] == fa[..15];
    } else {
      assert j == fa + fb[..Min(15, |fb|)];
      assert (fa + fb)[..Min(15, |fa| + |fb|)] == j[..Min(15, |j|)];
    }
  }

  /** Lower-casing the name first changes nothing. */
  lemma UsernameBaseCaseInsensitive(name: string)
    ensures UsernameBase(ToLower(name)) == UsernameBase(name)
  {
    ToLowerIdempotent(name);
  }
}
