/** Driver display names in src/main.py: the default `"CAR i"` given to a
    car first seen in a Motion packet, and the three-letter abbreviation
    derived from the 48-byte name field of a Participants record. */
module Names {
  import opened Wire
  import Utf8

  /** The placeholder a name field yields when it decodes to at most one
      character; it never overwrites a stored name. */
  const Unknown := "UNK"

  /** Python's `str.isspace`, which is also what `str.split()` splits on. */
  predicate IsSpace(c: char)
  {
    || '\t' <= c <= '\r'
    || '\U{1C}' <= c <= ' '
    || c == '\U{85}' || c == '\U{A0}' || c == '\U{1680}'
    || '\U{2000}' <= c <= '\U{200A}'
    || c == '\U{2028}' || c == '\U{2029}' || c == '\U{202F}' || c == '\U{205F}' || c == '\U{3000}'
  }

  /** The separators `str.split()` knows: among ASCII exactly tab, line
      feed, vertical tab, form feed, carriage return, the information
      separators 0x1C-0x1F and space; beyond ASCII, none past U+3000, and
      neither the zero-width space nor the byte-order mark. */
  lemma SpaceSeparators(c: char)
    ensures c < '\U{80}' ==> (IsSpace(c) <==> c in {'\t', '\n', '\U{B}', '\U{C}', '\r', '\U{1C}', '\U{1D}', '\U{1E}', '\U{1F}', ' '})
    ensures IsSpace(c) ==> '\t' <= c <= '\U{3000}' && c != '\U{200B}' && c != '\U{FEFF}'
  {
  }

  predicate NoSpace(s: string)
  {
    forall i :: 0 <= i < |s| ==> !IsSpace(s[i])
  }

  /** `s.split('\x00')[0]`: everything before the first NUL. */
  function BeforeNul(s: string): (r: string)
    ensures r <= s && '\0' !in r
    ensures |r| < |s| ==> s[|r|] == '\0'
  {
    if |s| == 0 || s[0] == '\0' then [] else [s[0]] + BeforeNul(s[1..])
  }

  /** The longest prefix of `s` without whitespace. */
  function Word(s: string): (r: string)
    ensures r <= s && NoSpace(r)
    ensures |r| < |s| ==> IsSpace(s[|r|])
  {
    if |s| == 0 || IsSpace(s[0]) then [] else [s[0]] + Word(s[1..])
  }

  /** `s.split()`: the maximal runs of non-whitespace characters, in order. */
  function Split(s: string): (ws: seq<string>)
    ensures forall k :: 0 <= k < |ws| ==> |ws[k]| > 0 && NoSpace(ws[k])
    ensures forall k, c :: 0 <= k < |ws| && c in ws[k] ==> c in s
    decreases |s|
  {
    if |s| == 0 then []
    else if IsSpace(s[0]) then
      assert forall c :: c in s[1..] ==> c in s;
      Split(s[1..])
    else
      var w := Word(s);
      assert forall c :: c in s[|w|..] ==> c in s;
      [w] + Split(s[|w|..])
  }

  /** Reference meaning of `Split`: the characters that are not whitespace,
      in order. */
  function NonSpace(s: string): string
  {
    if |s| == 0 then [] else (if IsSpace(s[0]) then [] else [s[0]]) + NonSpace(s[1..])
  }

  function Concat(ws: seq<string>): string
  {
    if |ws| == 0 then [] else ws[0] + Concat(ws[1..])
  }

  lemma {:induction false} NonSpaceAppend(a: string, b: string)
    ensures NonSpace(a + b) == NonSpace(a) + NonSpace(b)
  {
    if |a| > 0 {
      assert (a + b)[1..] == a[1..] + b;
      NonSpaceAppend(a[1..], b);
    } else {
      assert a + b == b;
    }
  }

  lemma {:induction false} NonSpaceOfWord(w: string)
    requires NoSpace(w)
    ensures NonSpace(w) == w
  {
    if |w| > 0 {
      NonSpaceOfWord(w[1..]);
    }
  }

  /** The words of `s` are exactly its non-whitespace characters, cut into
      pieces: `"".join(s.split())` drops the whitespace and nothing else. */
  lemma {:induction false} SplitKeepsNonSpace(s: string)
    ensures Concat(Split(s)) == NonSpace(s)
    decreases |s|
  {
    if |s| == 0 {
    } else if IsSpace(s[0]) {
      SplitKeepsNonSpace(s[1..]);
    } else {
      var w := Word(s);
      assert s == w + s[|w|..];
      SplitKeepsNonSpace(s[|w|..]);
      NonSpaceAppend(w, s[|w|..]);
      NonSpaceOfWord(w);
    }
  }

  /** A whitespace character separates the words before it from those after. */
  lemma {:induction false} SplitAtSpace(a: string, c: char, b: string)
    requires IsSpace(c)
    ensures Split(a + [c] + b) == Split(a) + Split(b)
    decreases |a|
  {
    var s := a + [c] + b;
    if |a| == 0 {
      DropBeforeSpace(a, c, b, 1);
    } else if IsSpace(a[0]) {
      DropBeforeSpace(a, c, b, 1);
      SplitAtSpace(a[1..], c, b);
    } else {
      var w := Word(s);
      WordBeforeSpace(a, c, b);
      DropBeforeSpace(a, c, b, |w|);
      SplitAtSpace(a[|w|..], c, b);
    }
  }

  /** Dropping a prefix of `a + [c] + b`: the rest of `a`, then `c` and `b`;
      dropping all of `a` and `c` leaves `b`. */
  lemma DropBeforeSpace(a: string, c: char, b: string, n: nat)
    requires n <= |a| || n == |a| + 1
    ensures n <= |a| ==> (a + [c] + b)[n..] == a[n..] + [c] + b
    ensures n == |a| + 1 ==> (a + [c] + b)[n..] == b
  {
  }

  lemma {:induction false} WordBeforeSpace(a: string, c: char, b: string)
    requires IsSpace(c)
    ensures Word(a + [c] + b) == Word(a)
    decreases |a|
  {
    if |a| > 0 && !IsSpace(a[0]) {
      assert (a + [c] + b)[1..] == a[1..] + [c] + b;
      WordBeforeSpace(a[1..], c, b);
    }
  }

  /** A string without whitespace is a single word. */
  lemma SplitOfWord(w: string)
    requires |w| > 0 && NoSpace(w)
    ensures Split(w) == [w]
  {
    WordOfWord(w);
    assert w[|w|..] == [];
  }

  lemma {:induction false} WordOfWord(w: string)
    requires NoSpace(w)
    ensures Word(w) == w
  {
    if |w| > 0 {
      WordOfWord(w[1..]);
    }
  }

  /** `s[:n]`. */
  function Take(s: string, n: nat): (r: string)
    ensures r <= s && |r| == if |s| < n then |s| else n
  {
    if |s| <= n then s else s[..n]
  }

  /** `s.upper()` on ASCII letters; every other character is left as is. */
  function Upper(s: string): (r: string)
    ensures |r| == |s|
    ensures forall i :: 0 <= i < |s| ==> r[i] == if 'a' <= s[i] <= 'z' then (s[i] as int - 32) as char else s[i]
  {
    if |s| == 0 then [] else [if 'a' <= s[0] <= 'z' then (s[0] as int - 32) as char else s[0]] + Upper(s[1..])
  }

  /** The abbreviation a Participants name field yields (src/main.py): cut
      at the first NUL; a result of at most one character is `Unknown`;
      otherwise the first three characters, upper-cased, of the last word, or
      of the whole text when it is all whitespace. */
  function DisplayName(field: seq<byte>): (r: string)
    ensures |r| <= 3
    ensures var text := BeforeNul(Utf8.Decode(field));
      && (|text| <= 1 ==> r == Unknown)
      && (|text| > 1 ==> 0 < |r| && '\0' !in r && forall i :: 0 <= i < |r| ==> !('a' <= r[i] <= 'z'))
  {
    var text := BeforeNul(Utf8.Decode(field));
    if |text| > 1 then
      var words := Split(text);
      if |words| > 0 then Upper(Take(words[|words| - 1], 3)) else Upper(Take(text, 3))
    else Unknown
  }

  /** A name field holding "<anything> <surname>" and then a NUL (the
      padding after it is arbitrary) is abbreviated to the first three
      letters of the surname, upper-cased. */
  lemma SurnameAbbreviation(given: string, surname: string, padding: seq<byte>)
    requires '\0' !in given && '\0' !in surname
    requires |surname| > 0 && NoSpace(surname)
    ensures DisplayName(Utf8.Encode(given + [' '] + surname) + [0] + padding) == Upper(Take(surname, 3))
  {
    var text := given + [' '] + surname;
    TextBeforeNul(text, padding);
    SplitAtSpace(given, ' ', surname);
    SplitOfWord(surname);
    var words := Split(text);
    assert words[|words| - 1] == surname;
  }

  predicate AllSpace(s: string)
  {
    forall i :: 0 <= i < |s| ==> IsSpace(s[i])
  }

  /** Text that is all whitespace has no words. */
  lemma {:induction false} SplitAllSpace(s: string)
    requires AllSpace(s)
    ensures Split(s) == []
    decreases |s|
  {
    if |s| > 0 {
      assert AllSpace(s[1..]) by {
        forall i | 0 <= i < |s[1..]|
          ensures IsSpace(s[1..][i])
        {
          assert s[1..][i] == s[i + 1];
        }
      }
      SplitAllSpace(s[1..]);
    }
  }

  /** A word followed only by whitespace is that single word. */
  lemma WordThenSpace(w: string, trail: string)
    requires |w| > 0 && NoSpace(w) && AllSpace(trail)
    ensures Split(w + trail) == [w]
  {
    SplitOfWord(w);
    if |trail| == 0 {
      assert w + trail == w;
    } else {
      SplitHead(w, trail);
      SplitAtSpace(w, trail[0], trail[1..]);
      assert AllSpace(trail[1..]) by {
        forall i | 0 <= i < |trail[1..]|
          ensures IsSpace(trail[1..][i])
        {
          assert trail[1..][i] == trail[i + 1];
        }
      }
      SplitAllSpace(trail[1..]);
    }
  }

  lemma SplitHead(a: string, b: string)
    requires |b| > 0
    ensures a + b == a + [b[0]] + b[1..]
  {
    assert b == [b[0]] + b[1..];
  }

  lemma Regroup(a: string, b: string, c: string)
    ensures a + b + c == a + (b + c)
  {
  }

  /** Any whitespace character separates the surname, and whitespace after
      it is ignored: the abbreviation is the last word's first three
      letters, upper-cased. */
  lemma LastWordAbbreviation(lead: string, sep: char, w: string, trail: string, padding: seq<byte>)
    requires '\0' !in lead && '\0' !in w && AllSpace(trail)
    requires IsSpace(sep) && |w| > 0 && NoSpace(w)
    ensures DisplayName(Utf8.Encode(lead + [sep] + w + trail) + [0] + padding) == Upper(Take(w, 3))
  {
    var text := lead + [sep] + w + trail;
    assert '\0' !in text by {
      assert forall i :: 0 <= i < |trail| ==> IsSpace(trail[i]);
    }
    TextBeforeNul(text, padding);
    Regroup(lead + [sep], w, trail);
    SplitAtSpace(lead, sep, w + trail);
    WordThenSpace(w, trail);
    var words := Split(text);
    assert words == Split(lead) + [w];
  }

  /** A field holding a single word, possibly followed by whitespace, is
      abbreviated to that word's first three letters, upper-cased, unless
      the whole text is at most one character long. */
  lemma SingleWordAbbreviation(w: string, trail: string, padding: seq<byte>)
    requires '\0' !in w && |w| > 0 && NoSpace(w) && AllSpace(trail)
    ensures DisplayName(Utf8.Encode(w + trail) + [0] + padding) ==
      if |w + trail| <= 1 then Unknown else Upper(Take(w, 3))
  {
    var text := w + trail;
    assert '\0' !in text by {
      assert forall i :: 0 <= i < |trail| ==> IsSpace(trail[i]);
    }
    TextBeforeNul(text, padding);
    WordThenSpace(w, trail);
  }

  /** A field of whitespace only has no last word: its first three
      characters are shown, upper-cased (which leaves them as they are). */
  lemma AllSpaceAbbreviation(text: string, padding: seq<byte>)
    requires AllSpace(text)
    ensures DisplayName(Utf8.Encode(text) + [0] + padding) ==
      if |text| <= 1 then Unknown else Upper(Take(text, 3))
  {
    assert '\0' !in text by {
      assert forall i :: 0 <= i < |text| ==> IsSpace(text[i]);
    }
    TextBeforeNul(text, padding);
    SplitAllSpace(text);
  }

  /** What the name field holds up to its NUL terminator is what was encoded. */
  lemma TextBeforeNul(text: string, padding: seq<byte>)
    requires '\0' !in text
    ensures BeforeNul(Utf8.Decode(Utf8.Encode(text) + [0] + padding)) == text
  {
    var field := Utf8.Encode(text) + [0] + padding;
    assert field == Utf8.Encode(text) + ([0] + padding);
    Utf8.DecodeEncodeAppend(text, [0] + padding);
    assert Utf8.HeadLength([0] + padding) == 1;
    Utf8.DecodeWellFormedHead([0] + padding);
    assert ([0] + padding)[1..] == padding;
    assert text + (['\0'] + Utf8.Decode(padding)) == text + ['\0'] + Utf8.Decode(padding);
    BeforeNulStops(text, Utf8.Decode(padding));
  }

  lemma {:induction false} BeforeNulStops(s: string, rest: string)
    requires '\0' !in s
    ensures BeforeNul(s + ['\0'] + rest) == s
  {
    if |s| > 0 {
      assert (s + ['\0'] + rest)[1..] == s[1..] + ['\0'] + rest;
      BeforeNulStops(s[1..], rest);
    }
  }

  /** "Lewis Hamilton" is shown as "HAM". */
  lemma HamiltonExample(padding: seq<byte>)
    ensures DisplayName(Utf8.Encode("Lewis Hamilton") + [0] + padding) == "HAM"
  {
    var surname := "Hamilton";
    assert "Lewis Hamilton" == "Lewis" + [' '] + surname;
    HamiltonLetters();
    SurnameAbbreviation("Lewis", surname, padding);
    HamiltonUpper();
  }

  lemma HamiltonLetters()
    ensures NoSpace("Hamilton") && '\0' !in "Hamilton" && '\0' !in "Lewis"
  {
    var surname := "Hamilton";
    assert forall i :: 0 <= i < |surname| ==> 'A' <= surname[i] <= 'z';
  }

  lemma HamiltonUpper()
    ensures Upper(Take("Hamilton", 3)) == "HAM"
  {
    var t := Take("Hamilton", 3);
    assert t == "Ham";
    var u := Upper(t);
    assert u[0] == 'H' && u[1] == 'A' && u[2] == 'M';
  }

  /** A name field with no decodable character, such as all 0xFF bytes, is
      `Unknown`. */
  lemma UndecodableIsUnknown(field: seq<byte>)
    requires forall i :: 0 <= i < |field| ==> field[i] >= 0xF5
    ensures DisplayName(field) == Unknown
  {
    Utf8.DecodeNeverLead(field);
  }

  // ---------------------------------------------------------------------
  // Default names
  // ---------------------------------------------------------------------

  function Digit(d: nat): char
    requires d < 10
  {
    ('0' as int + d) as char
  }

  /** `str(n)`. */
  function Decimal(n: nat): (s: string)
    ensures |s| > 0
    ensures forall i :: 0 <= i < |s| ==> '0' <= s[i] <= '9'
  {
    if n < 10 then [Digit(n)] else Decimal(n / 10) + [Digit(n % 10)]
  }

  /** `int(s)` for a string of decimal digits. */
  function ParseDecimal(s: string): nat
    requires forall i :: 0 <= i < |s| ==> '0' <= s[i] <= '9'
  {
    if |s| == 0 then 0 else 10 * ParseDecimal(s[..|s| - 1]) + (s[|s| - 1] as int - '0' as int)
  }

  lemma {:induction false} DecimalRoundTrip(n: nat)
    ensures ParseDecimal(Decimal(n)) == n
  {
    if n >= 10 {
      var s := Decimal(n);
      assert s[..|s| - 1] == Decimal(n / 10);
      DecimalRoundTrip(n / 10);
    }
  }

  /** `f"CAR {i}"`: the name a car gets when a Motion packet first shows it. */
  function DefaultName(i: nat): (r: string)
    ensures |r| > 4 && r[..4] == "CAR "
    ensures forall k :: 4 <= k < |r| ==> '0' <= r[k] <= '9'
    ensures r != Unknown
  {
    "CAR " + Decimal(i)
  }

  /** Different cars get different default names, and the index can be
      read back from the name. */
  lemma DefaultNameIdentifies(i: nat)
    ensures DefaultName(i)[..4] == "CAR "
    ensures ParseDecimal(DefaultName(i)[4..]) == i
  {
    assert DefaultName(i)[4..] == Decimal(i);
    DecimalRoundTrip(i);
  }
}
