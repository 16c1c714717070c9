/** The string transforms of the generator's I/O helpers: ASCII lower- and
    upper-casing, which Rust performs in place on the owned string, and the
    replacement of every space by a hyphen, which builds a new string. */
module Io {
  import opened Strings

  /** The recognised options of `Transform for String`. */
  datatype Transforms = Lowercase | Uppercase | NoWhitespaces

  /** What one option does to one character. */
  function TransformChar(t: Transforms, c: char): char {
    match t
    case Lowercase => if 'A' <= c <= 'Z' then (c as int + 32) as char else c
    case Uppercase => if 'a' <= c <= 'z' then (c as int - 32) as char else c
    case NoWhitespaces => if c == ' ' then '-' else c
  }

  /** The text `make_ascii_lowercase` leaves behind: every 'A'..'Z' becomes
      the matching 'a'..'z', every other character is kept. */
  function AsciiLowercase(s: string): (r: string)
    ensures |r| == |s|
    ensures forall i | 0 <= i < |s| ::
      if 'A' <= s[i] <= 'Z' then r[i] as int == s[i] as int + 32 else r[i] == s[i]
  {
    if s == [] then [] else [TransformChar(Lowercase, s[0])] + AsciiLowercase(s[1..])
  }

  /** The text `make_ascii_uppercase` leaves behind: every 'a'..'z' becomes
      the matching 'A'..'Z', every other character is kept. */
  function AsciiUppercase(s: string): (r: string)
    ensures |r| == |s|
    ensures forall i | 0 <= i < |s| ::
      if 'a' <= s[i] <= 'z' then r[i] as int == s[i] as int - 32 else r[i] == s[i]
  {
    if s == [] then [] else [TransformChar(Uppercase, s[0])] + AsciiUppercase(s[1..])
  }

  /** The value of `s.transform(t)`. */
  function Transformed(s: string, t: Transforms): string {
    match t
    case Lowercase => AsciiLowercase(s)
    case Uppercase => AsciiUppercase(s)
    case NoWhitespaces => ReplaceAll(s, " ", "-")
  }

  /** `make_ascii_lowercase`: lower-cases the buffer in place. */
  method MakeAsciiLowercase(a: array<char>)
    modifies a
    ensures a[..] == AsciiLowercase(old(a[..]))
  {
    for i := 0 to a.Length
      invariant forall k | 0 <= k < i :: a[k] == TransformChar(Lowercase, old(a[k]))
      invariant forall k | i <= k < a.Length :: a[k] == old(a[k])
    {
      a[i] := TransformChar(Lowercase, a[i]);
    }
  }

  /** `make_ascii_uppercase`: upper-cases the buffer in place. */
  method MakeAsciiUppercase(a: array<char>)
    modifies a
    ensures a[..] == AsciiUppercase(old(a[..]))
  {
    for i := 0 to a.Length
      invariant forall k | 0 <= k < i :: a[k] == TransformChar(Uppercase, old(a[k]))
      invariant forall k | i <= k < a.Length :: a[k] == old(a[k])
    {
      a[i] := TransformChar(Uppercase, a[i]);
    }
  }

  /** `Transform for String`: the owned string is changed in place for the
      two case options and replaced by a new string for `NoWhitespaces`. */
  method Transform(s: string, t: Transforms) returns (r: string)
    ensures r == Transformed(s, t)
  {
    match t {
      case Lowercase =>
        var buf := new char[|s|](i requires 0 <= i < |s| => s[i]);
        assert buf[..] == s;
        MakeAsciiLowercase(buf);
        r := buf[..];
      case Uppercase =>
        var buf := new char[|s|](i requires 0 <= i < |s| => s[i]);
        assert buf[..] == s;
        MakeAsciiUppercase(buf);
        r := buf[..];
      case NoWhitespaces =>
        r := ReplaceAll(s, " ", "-");
    }
  }

  /** Every option maps the text character by character, so it keeps the
      length and acts on each position through `TransformChar` alone. */
  lemma TransformedCharwise(s: string, t: Transforms)
    ensures |Transformed(s, t)| == |s|
    ensures forall i | 0 <= i < |s| :: Transformed(s, t)[i] == TransformChar(t, s[i])
  {
    if t == NoWhitespaces {
      ReplaceAllChar(s, ' ', '-');
    }
  }

  /** Applying an option twice is the same as applying it once. */
  lemma TransformedIdempotent(s: string, t: Transforms)
    ensures Transformed(Transformed(s, t), t) == Transformed(s, t)
  {
    var once := Transformed(s, t);
    TransformedCharwise(s, t);
    TransformedCharwise(once, t);
  }
}
