/** Sanitising user-supplied strings (notebook titles, note titles, attachment
    names) into single path components. */
module Sanitising {
  import opened Text

  /** Characters the script turns into `-`, in the order it replaces them. */
  const DashChars: seq<char> := [':', '/', '\\', '|']
  /** Characters the script deletes, in the order it deletes them. */
  const DropChars: seq<char> := ['?', '*']
  /** The script keeps at most this many characters. */
  const MaxNameLength: nat := 240

  /** A character that may not appear in a sanitised path component. */
  predicate IsUnsafe(c: char)
  {
    c == ':' || c == '/' || c == '\\' || c == '|' || c == '?' || c == '*' ||
    c == '<' || c == '>' || c == '"'
  }

  predicate IsSafe(s: string)
  {
    forall i :: 0 <= i < |s| ==> !IsUnsafe(s[i])
  }

  /** What sanitising does to one character. */
  function SafeChar(c: char): string
  {
    if c == ':' || c == '/' || c == '\\' || c == '|' then "-"
    else if c == '?' || c == '*' then ""
    else if c == '<' then "("
    else if c == '>' then ")"
    else if c == '"' then "'"
    else [c]
  }

  /** Every character mapped through `SafeChar`, in order. */
  function MapChars(s: string): string
    decreases |s|
  {
    if s == [] then [] else SafeChar(s[0]) + MapChars(s[1..])
  }

  /** The first `n` characters, or all of them when there are fewer. */
  function Truncate(s: string, n: nat): string
  {
    if |s| <= n then s else s[..n]
  }

  /** The reference definition of sanitising: map every character, then keep
      the first `MaxNameLength` characters. */
  function Sanitise(s: string): string
  {
    Truncate(MapChars(s), MaxNameLength)
  }

  /** Each character of `cs` replaced by `rep`, one character after the other. */
  function ReplaceEach(s: string, cs: seq<char>, rep: string): string
    decreases |cs|
  {
    if cs == [] then s else ReplaceAll(ReplaceEach(s, cs[..|cs| - 1], rep), [cs[|cs| - 1]], rep)
  }

  /** The chain of replacements the script applies before truncating. */
  function Replaced(s: string): string
  {
    var dashed := ReplaceEach(s, DashChars, "-");
    var dropped := ReplaceEach(dashed, DropChars, "");
    ReplaceAll(ReplaceAll(ReplaceAll(dropped, "<", "("), ">", ")"), "\"", "'")
  }

  /** The script's `sanitise_path_string`: two loops of replacements, three
      more replacements, and a slice. */
  method SanitisePathString(pathStr: string) returns (r: string)
    ensures r == Sanitise(pathStr)
  {
    var s := pathStr;
    for i := 0 to |DashChars|
      invariant s == ReplaceEach(pathStr, DashChars[..i], "-")
    {
      assert DashChars[..i + 1][..i] == DashChars[..i];
      s := ReplaceAll(s, [DashChars[i]], "-");
    }
    assert DashChars[..|DashChars|] == DashChars;
    ghost var dashed := s;
    for i := 0 to |DropChars|
      invariant s == ReplaceEach(dashed, DropChars[..i], "")
    {
      assert DropChars[..i + 1][..i] == DropChars[..i];
      s := ReplaceAll(s, [DropChars[i]], "");
    }
    assert DropChars[..|DropChars|] == DropChars;
    s := ReplaceAll(s, "<", "(");
    s := ReplaceAll(s, ">", ")");
    s := ReplaceAll(s, "\"", "'");
    ReplacedIsCharwise(pathStr);
    r := if |s| <= MaxNameLength then s else s[..MaxNameLength];
  }

  lemma {:induction false} ReplaceEachConcat(a: string, b: string, cs: seq<char>, rep: string)
    ensures ReplaceEach(a + b, cs, rep) == ReplaceEach(a, cs, rep) + ReplaceEach(b, cs, rep)
    decreases |cs|
  {
    if cs != [] {
      ReplaceEachConcat(a, b, cs[..|cs| - 1], rep);
      ReplaceCharConcat(ReplaceEach(a, cs[..|cs| - 1], rep), ReplaceEach(b, cs[..|cs| - 1], rep), cs[|cs| - 1], rep);
    }
  }

  /** On a string of at most one character, a chain of replacements by a
      string none of `cs` occurs in replaces the character if it is one of `cs`. */
  lemma {:induction false} ReplaceEachShort(t: string, cs: seq<char>, rep: string)
    requires |t| <= 1 && |rep| <= 1
    requires forall i :: 0 <= i < |cs| ==> cs[i] !in rep
    ensures ReplaceEach(t, cs, rep) == if t == [] then [] else if t[0] in cs then rep else t
    decreases |cs|
  {
    if cs != [] {
      var init := cs[..|cs| - 1];
      ReplaceEachShort(t, init, rep);
      ReplaceCharShort(ReplaceEach(t, init, rep), cs[|cs| - 1], rep);
      assert t != [] ==> (t[0] in cs <==> t[0] in init || t[0] == cs[|cs| - 1]) by {
        assert cs == init + [cs[|cs| - 1]];
      }
    }
  }

  lemma ReplacedConcat(a: string, b: string)
    ensures Replaced(a + b) == Replaced(a) + Replaced(b)
  {
    ReplaceEachConcat(a, b, DashChars, "-");
    var da, db := ReplaceEach(a, DashChars, "-"), ReplaceEach(b, DashChars, "-");
    ReplaceEachConcat(da, db, DropChars, "");
    var ra, rb := ReplaceEach(da, DropChars, ""), ReplaceEach(db, DropChars, "");
    ReplaceCharConcat(ra, rb, '<', "(");
    var xa, xb := ReplaceAll(ra, "<", "("), ReplaceAll(rb, "<", "(");
    ReplaceCharConcat(xa, xb, '>', ")");
    ReplaceCharConcat(ReplaceAll(xa, ">", ")"), ReplaceAll(xb, ">", ")"), '"', "'");
  }

  lemma ReplacedSingle(c: char)
    ensures Replaced([c]) == SafeChar(c)
  {
    ReplaceEachShort([c], DashChars, "-");
    var dashed := ReplaceEach([c], DashChars, "-");
    ReplaceEachShort(dashed, DropChars, "");
    var dropped := ReplaceEach(dashed, DropChars, "");
    ReplaceCharShort(dropped, '<', "(");
    var x := ReplaceAll(dropped, "<", "(");
    ReplaceCharShort(x, '>', ")");
    var y := ReplaceAll(x, ">", ")");
    ReplaceCharShort(y, '"', "'");
  }

  /** The script's chain of replacements is the character-by-character map. */
  lemma {:induction false} ReplacedIsCharwise(s: string)
    ensures Replaced(s) == MapChars(s)
    decreases |s|
  {
    if s == [] {
      assert ReplaceEach([], DashChars, "-") == [] by { ReplaceEachShort([], DashChars, "-"); }
      assert ReplaceEach([], DropChars, "") == [] by { ReplaceEachShort([], DropChars, ""); }
      ReplaceCharShort([], '<', "(");
      ReplaceCharShort([], '>', ")");
      ReplaceCharShort([], '"', "'");
    } else {
      assert s == [s[0]] + s[1..];
      ReplacedConcat([s[0]], s[1..]);
      ReplacedSingle(s[0]);
      ReplacedIsCharwise(s[1..]);
    }
  }

  /** The character map leaves no unsafe character and never lengthens. */
  lemma {:induction false} MapCharsSafe(s: string)
    ensures IsSafe(MapChars(s)) && |MapChars(s)| <= |s|
    decreases |s|
  {
    if s != [] {
      MapCharsSafe(s[1..]);
    }
  }

  /** The character map keeps a string without unsafe characters as it is. */
  lemma {:induction false} MapCharsKeepsSafe(s: string)
    requires IsSafe(s)
    ensures MapChars(s) == s
    decreases |s|
  {
    if s != [] {
      assert !IsUnsafe(s[0]);
      MapCharsKeepsSafe(s[1..]);
      assert s == [s[0]] + s[1..];
    }
  }

  /** A sanitised string is short, contains no unsafe character and is no longer than the input. */
  lemma SanitiseIsSafe(s: string)
    ensures |Sanitise(s)| <= MaxNameLength && |Sanitise(s)| <= |s|
    ensures IsSafe(Sanitise(s))
  {
    MapCharsSafe(s);
  }

  /** Strings that are already short and safe are their own sanitised form. */
  lemma SanitiseKeepsSafe(s: string)
    requires IsSafe(s) && |s| <= MaxNameLength
    ensures Sanitise(s) == s
  {
    MapCharsKeepsSafe(s);
  }

  /** Sanitising twice is sanitising once. */
  lemma SanitiseIdempotent(s: string)
    ensures Sanitise(Sanitise(s)) == Sanitise(s)
  {
    SanitiseIsSafe(s);
    SanitiseKeepsSafe(Sanitise(s));
  }

  /** The name of the media directory inside each notebook directory. */
  const MediaDirName: string := "media"

  /** The script sanitises the configured name once at start-up; that leaves
      it as it is, so the model uses it directly. */
  lemma MediaDirNameIsSanitised()
    ensures Sanitise(MediaDirName) == MediaDirName
  {
  }
}
