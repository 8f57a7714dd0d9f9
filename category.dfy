/** Normalisation of a live stream's category (live.py, normalize_category): English,
    Chinese and digit aliases are folded onto the five internal keys, with
    'entertainment' as the default. */
module Category {
  import opened Records

  datatype Category = Gaming | Entertainment | Music | Education | Other

  /** The internal value of a category: a key of CATEGORY_MAP. */
  function Key(c: Category): string
  {
    match c
    case Gaming => "gaming"
    case Entertainment => "entertainment"
    case Music => "music"
    case Education => "education"
    case Other => "other"
  }

  /** CATEGORY_MAP: internal value to Chinese display name. */
  const CATEGORY_MAP: map<string, string> := map[
    "gaming" := "游戏",
    "entertainment" := "娱乐",
    "music" := "音乐",
    "education" := "知识",
    "other" := "其他"]

  const CATEGORY_DEFAULT: Category := Entertainment

  /** The Chinese display name CATEGORY_MAP gives a category: two CJK characters. */
  function Label(c: Category): (l: string)
    ensures Key(c) in CATEGORY_MAP
    ensures |l| == 2 && l[0] as int >= 0x4E00 && l[1] as int >= 0x4E00
  {
    CATEGORY_MAP[Key(c)]
  }

  const EN_MAP: map<string, Category> := map[
    "gaming" := Gaming, "game" := Gaming,
    "entertainment" := Entertainment, "ent" := Entertainment,
    "music" := Music,
    "education" := Education, "edu" := Education,
    "other" := Other]

  const CN_MAP: map<string, Category> := map[
    "游戏" := Gaming,
    "娱乐" := Entertainment,
    "音乐" := Music,
    "知识" := Education, "教育" := Education,
    "其他" := Other]

  const NUM_MAP: map<int, Category> := map[
    0 := Gaming, 1 := Entertainment, 2 := Music, 3 := Education, 4 := Other]

  /** The value handed to normalize_category: absent (None), a string or an integer. */
  datatype Raw = Absent | Text(text: string) | Number(n: int)

  /** Python truthiness of the raw value: None, "" and 0 are false. */
  predicate Falsy(raw: Raw)
  {
    match raw
    case Absent => true
    case Text(t) => t == ""
    case Number(n) => n == 0
  }

  // ---- Python's str(), str.strip(), str.lower(), str.isdigit() and int() ----

  function DigitChar(d: int): char
    requires 0 <= d < 10
  {
    ('0' as int + d) as char
  }

  /** Decimal digits of a natural number, without leading zeros. */
  function Digits(n: nat): string
    decreases n
  {
    if n < 10 then [DigitChar(n)] else Digits(n / 10) + [DigitChar(n % 10)]
  }

  /** str(n) for an integer. */
  function Decimal(n: int): string
  {
    if n < 0 then "-" + Digits(-n) else Digits(n)
  }

  /** str(raw) for a truthy raw value. */
  function Str(raw: Raw): string
  {
    match raw
    case Absent => "None"
    case Text(t) => t
    case Number(n) => Decimal(n)
  }

  /** The characters str.isspace() accepts (and hence the ones str.strip() removes). */
  predicate IsSpace(c: char)
  {
    var x := c as int;
    || 0x09 <= x <= 0x0D || 0x1C <= x <= 0x20 || x == 0x85 || x == 0xA0 || x == 0x1680
    || 0x2000 <= x <= 0x200A || x == 0x2028 || x == 0x2029 || x == 0x202F || x == 0x205F
    || x == 0x3000
  }

  function StripLeft(s: string): string
  {
    if |s| > 0 && IsSpace(s[0]) then StripLeft(s[1..]) else s
  }

  function StripRight(s: string): string
  {
    if |s| > 0 && IsSpace(s[|s| - 1]) then StripRight(s[..|s| - 1]) else s
  }

  /** str.strip() with no argument. */
  function Strip(s: string): string
  {
    StripRight(StripLeft(s))
  }

  function LowerChar(c: char): char
  {
    if 'A' <= c <= 'Z' then (c as int + 32) as char else c
  }

  /** str.lower() on ASCII letters. */
  function Lower(s: string): string
  {
    seq(|s|, i requires 0 <= i < |s| => LowerChar(s[i]))
  }

  predicate IsDigit(c: char)
  {
    '0' <= c <= '9'
  }

  /** str.isdigit(): non-empty and made of digits. */
  predicate IsDigits(s: string)
  {
    |s| > 0 && forall i :: 0 <= i < |s| ==> IsDigit(s[i])
  }

  /** int(s) for a digit string. */
  function DigitsValue(s: string): nat
    requires forall i :: 0 <= i < |s| ==> IsDigit(s[i])
  {
    if s == [] then 0
    else
      var d := s[|s| - 1];
      assert IsDigit(d);
      DigitsValue(s[..|s| - 1]) * 10 + (d as int - '0' as int)
  }

  // ---- normalize_category ----

  /** The lookup performed on the stripped, lower-cased text. */
  function Lookup(t: string): Category
  {
    if IsDigits(t) then
      (if DigitsValue(t) in NUM_MAP then NUM_MAP[DigitsValue(t)] else CATEGORY_DEFAULT)
    else if t in EN_MAP then EN_MAP[t]
    else if t in CN_MAP then CN_MAP[t]
    else CATEGORY_DEFAULT
  }

  function Normalize(raw: Raw): Category
  {
    if Falsy(raw) then CATEGORY_DEFAULT else Lookup(Lower(Strip(Str(raw))))
  }

  // ---- properties ----

  /** The result is always one of the five internal keys of CATEGORY_MAP. */
  lemma NormalizeInRange(raw: Raw)
    ensures Key(Normalize(raw)) in CATEGORY_MAP
    ensures Key(Normalize(raw)) in {"gaming", "entertainment", "music", "education", "other"}
  {
  }

  /** A falsy value gives the default, while the one-character string "0" is truthy and
      reaches the digit table. */
  lemma FalsyAndZero(raw: Raw)
    ensures Falsy(raw) ==> Normalize(raw) == Entertainment
    ensures Normalize(Number(0)) == Entertainment && Normalize(Text("")) == Entertainment
    ensures Normalize(Absent) == Entertainment
    ensures Normalize(Text("0")) == Gaming
  {
    assert Strip("0") == "0";
    assert Lower("0") == "0";
    assert DigitsValue("0") == 0 by { assert "0"[..0] == ""; }
  }

  lemma StripNoSpace(s: string)
    requires |s| > 0 && !IsSpace(s[0]) && !IsSpace(s[|s| - 1])
    ensures Strip(s) == s
  {
  }

  lemma LowerOfLower(s: string)
    requires forall i :: 0 <= i < |s| ==> !('A' <= s[i] <= 'Z')
    ensures Lower(s) == s
  {
  }

  /** An internal key is left alone by strip() and lower(), and maps to itself. */
  lemma KeyIsFixed(c: Category)
    ensures Strip(Key(c)) == Key(c) && Lower(Key(c)) == Key(c)
    ensures Lookup(Key(c)) == c
  {
    var k := Key(c);
    StripNoSpace(k);
    LowerOfLower(k);
    assert !IsDigit(k[0]);
    assert k in EN_MAP;
  }

  /** normalize_category is idempotent on its own output. */
  lemma NormalizeIdempotent(raw: Raw)
    ensures Normalize(Text(Key(Normalize(raw)))) == Normalize(raw)
  {
    KeyIsFixed(Normalize(raw));
  }

  /** A text without surrounding whitespace, capitals or a leading digit goes straight to
      the alias tables. */
  lemma PlainLookup(l: string)
    requires |l| > 0 && !IsSpace(l[0]) && !IsSpace(l[|l| - 1]) && !IsDigit(l[0])
    requires forall i :: 0 <= i < |l| ==> !('A' <= l[i] <= 'Z')
    ensures Normalize(Text(l)) ==
      if l in EN_MAP then EN_MAP[l] else if l in CN_MAP then CN_MAP[l] else CATEGORY_DEFAULT
  {
    StripNoSpace(l);
    LowerOfLower(l);
    assert !IsDigits(l);
  }

  /** A two-character CJK text is looked up in the Chinese table only. */
  lemma CjkLookup(l: string)
    requires |l| == 2 && l[0] as int >= 0x4E00 && l[1] as int >= 0x4E00
    ensures Normalize(Text(l)) == if l in CN_MAP then CN_MAP[l] else CATEGORY_DEFAULT
  {
    PlainLookup(l);
    assert l !in EN_MAP by { assert forall k :: k in EN_MAP ==> k[0] < 'z'; }
  }

  /** A CATEGORY_MAP display name normalises back to its category. */
  lemma LabelRoundTrip(c: Category)
    ensures Normalize(Text(Label(c))) == c
  {
    var l := Label(c);
    CjkLookup(l);
    assert l in CN_MAP && CN_MAP[l] == c;
  }

  // -- digit strings and integers --

  lemma DigitsAreDigits(n: nat)
    ensures IsDigits(Digits(n))
    ensures DigitsValue(Digits(n)) == n
    decreases n
  {
    if n >= 10 {
      DigitsAreDigits(n / 10);
      var s := Digits(n);
      assert s[..|s| - 1] == Digits(n / 10);
    }
  }

  lemma DecimalIsPlain(n: int)
    ensures |Decimal(n)| > 0
    ensures Strip(Decimal(n)) == Decimal(n) && Lower(Decimal(n)) == Decimal(n)
  {
    var m := if n < 0 then -n else n;
    DigitsAreDigits(m);
    var s := Decimal(n);
    assert s[|s| - 1] == Digits(m)[|Digits(m)| - 1];
    StripNoSpace(s);
    LowerOfLower(s);
  }

  /** A negative integer is written with a '-' sign, so it is no digit string and no
      alias: it gives the default. */
  lemma NegativeNumber(n: int)
    requires n < 0
    ensures Normalize(Number(n)) == CATEGORY_DEFAULT
  {
    DecimalIsPlain(n);
    var t := Decimal(n);
    assert t[0] == '-';
    assert !IsDigits(t);
    assert t !in EN_MAP by { assert forall k :: k in EN_MAP ==> k[0] != '-'; }
    assert t !in CN_MAP by { assert forall k :: k in CN_MAP ==> k[0] != '-'; }
  }

  /** An integer goes through str(): 1..4 hit the digit table, every other non-zero
      integer gives the default, and 0 is falsy. */
  lemma NumberCase(n: int)
    ensures Normalize(Number(n)) == if 1 <= n <= 4 then NUM_MAP[n] else CATEGORY_DEFAULT
  {
    if n > 0 {
      DecimalIsPlain(n);
      DigitsAreDigits(n);
    } else if n < 0 {
      NegativeNumber(n);
    }
  }

  /** A digit string (after strip and lower) is read as an integer and looked up in the
      digit table; anything outside 0..4 gives the default. */
  lemma DigitTextCase(s: string)
    requires IsDigits(Lower(Strip(s)))
    ensures Normalize(Text(s)) ==
      var v := DigitsValue(Lower(Strip(s)));
      if v <= 4 then NUM_MAP[v] else CATEGORY_DEFAULT
  {
  }

  // -- whitespace and case --

  lemma {:induction false} StripLeftSpaces(pre: string, x: string)
    requires forall i :: 0 <= i < |pre| ==> IsSpace(pre[i])
    ensures StripLeft(pre + x) == StripLeft(x)
    decreases |pre|
  {
    if pre != [] {
      assert (pre + x)[0] == pre[0] && IsSpace(pre[0]);
      assert (pre + x)[1..] == pre[1..] + x;
      assert forall i :: 0 <= i < |pre[1..]| ==> pre[1..][i] == pre[i + 1];
      StripLeftSpaces(pre[1..], x);
    } else {
      assert pre + x == x;
    }
  }

  lemma {:induction false} StripRightSpaces(x: string, post: string)
    requires forall i :: 0 <= i < |post| ==> IsSpace(post[i])
    ensures StripRight(x + post) == StripRight(x)
    decreases |post|
  {
    if post != [] {
      var p := post[..|post| - 1];
      assert (x + post)[|x + post| - 1] == post[|post| - 1] && IsSpace(post[|post| - 1]);
      assert (x + post)[..|x + post| - 1] == x + p;
      assert forall i :: 0 <= i < |p| ==> p[i] == post[i];
      StripRightSpaces(x, p);
    } else {
      assert x + post == x;
    }
  }

  /** StripLeft of a concatenation stops inside the first part unless that part is all
      whitespace. */
  lemma {:induction false} StripLeftAppend(s: string, t: string)
    ensures (forall i :: 0 <= i < |s| ==> IsSpace(s[i])) ==> StripLeft(s + t) == StripLeft(t)
    ensures (exists i :: 0 <= i < |s| && !IsSpace(s[i])) ==> StripLeft(s + t) == StripLeft(s) + t
    decreases |s|
  {
    if s != [] {
      assert (s + t)[1..] == s[1..] + t;
      StripLeftAppend(s[1..], t);
      if exists i :: 0 <= i < |s| && !IsSpace(s[i]) {
        var i :| 0 <= i < |s| && !IsSpace(s[i]);
        if IsSpace(s[0]) {
          assert i > 0 && !IsSpace(s[1..][i - 1]);
        }
      }
      if forall i :: 0 <= i < |s| ==> IsSpace(s[i]) {
        assert forall i :: 0 <= i < |s[1..]| ==> IsSpace(s[1..][i]) by {
          forall i | 0 <= i < |s[1..]| ensures IsSpace(s[1..][i]) { assert s[1..][i] == s[i + 1]; }
        }
      }
    } else {
      assert s + t == t;
    }
  }

  lemma {:induction false} StripLeftAllSpaces(s: string)
    requires forall i :: 0 <= i < |s| ==> IsSpace(s[i])
    ensures StripLeft(s) == ""
  {
    StripLeftSpaces(s, "");
    assert s + "" == s;
  }

  /** Surrounding whitespace does not change the category. */
  lemma PaddingIgnored(pre: string, s: string, post: string)
    requires forall i :: 0 <= i < |pre| ==> IsSpace(pre[i])
    requires forall i :: 0 <= i < |post| ==> IsSpace(post[i])
    ensures Normalize(Text(pre + s + post)) == Normalize(Text(s))
  {
    var whole := pre + s + post;
    assert whole == pre + (s + post);
    StripLeftSpaces(pre, s + post);
    StripLeftAppend(s, post);
    if forall i :: 0 <= i < |s| ==> IsSpace(s[i]) {
      StripLeftAllSpaces(post);
      StripLeftAllSpaces(s);
      assert Strip(whole) == "";
      if s != "" {
        assert Strip(s) == "";
      }
    } else {
      StripRightSpaces(StripLeft(s), post);
    }
    SameStripSameCategory(whole, s);
  }

  /** Two strings that strip to the same text name the same category. */
  lemma SameStripSameCategory(a: string, b: string)
    requires Strip(a) == Strip(b)
    ensures Normalize(Text(a)) == Normalize(Text(b))
  {
    if Strip(a) == "" {
      assert Lower("") == "";
      assert !IsDigits("");
    } else {
      assert a != "" && b != "";
    }
  }

  lemma {:induction false} LowerStripLeft(s: string)
    ensures Lower(StripLeft(s)) == StripLeft(Lower(s))
    decreases |s|
  {
    if |s| > 0 && IsSpace(s[0]) {
      assert Lower(s)[1..] == Lower(s[1..]);
      LowerStripLeft(s[1..]);
    }
  }

  lemma {:induction false} LowerStripRight(s: string)
    ensures Lower(StripRight(s)) == StripRight(Lower(s))
    decreases |s|
  {
    if |s| > 0 && IsSpace(s[|s| - 1]) {
      assert Lower(s)[..|s| - 1] == Lower(s[..|s| - 1]);
      LowerStripRight(s[..|s| - 1]);
    }
  }

  /** Texts that differ only in the case of ASCII letters get the same category, so
      " GAME " and "game" both give gaming. */
  lemma CaseIgnored(s: string, t: string)
    requires Lower(s) == Lower(t)
    ensures Normalize(Text(s)) == Normalize(Text(t))
  {
    LowerStripLeft(s);
    LowerStripRight(StripLeft(s));
    LowerStripLeft(t);
    LowerStripRight(StripLeft(t));
    assert |s| == |Lower(s)| == |t|;
  }

  /** " GAME " is gaming: whitespace and case do not matter. */
  lemma ExamplePaddedUpperCase()
    ensures Normalize(Text(" GAME ")) == Gaming
  {
    PaddingIgnored(" ", "GAME", " ");
    assert " " + "GAME" + " " == " GAME ";
    UpperCaseGame();
  }

  lemma UpperCaseGame()
    ensures Normalize(Text("GAME")) == Gaming
  {
    var l := Lower("GAME");
    assert |l| == 4 && l[0] == 'g' && l[1] == 'a' && l[2] == 'm' && l[3] == 'e';
    assert l == "game";
    CaseIgnored("GAME", "game");
    PlainLookup("game");
  }

  /** "Edu" is education. */
  lemma ExampleShortAlias()
    ensures Normalize(Text("Edu")) == Education
  {
    var l := Lower("Edu");
    assert |l| == 3 && l[0] == 'e' && l[1] == 'd' && l[2] == 'u';
    assert l == "edu";
    CaseIgnored("Edu", "edu");
    PlainLookup("edu");
  }

  /** "7" is a digit string outside the digit table and gives the default. */
  lemma ExampleUnknownDigit()
    ensures Normalize(Text("7")) == Entertainment
  {
    assert Strip("7") == "7" && Lower("7") == "7";
    assert DigitsValue("7") == 7 by { assert "7"[..0] == ""; }
  }
}
