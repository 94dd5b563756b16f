/** The `HH:MM:SS` shape the register schema demands of `entry_time` and
    `departure_time`: the regular expression `^\d{2}:\d{2}:\d{2}$`. */
module TimeOfDay {

  /** `\d` of a JavaScript regular expression without the `u` flag. */
  predicate IsDigit(c: char) {
    '0' <= c <= '9'
  }

  /** Exactly two digits, a colon, two digits, a colon, two digits, and
      nothing before or after (`^` and `$` anchor the whole string). */
  predicate HasTimeShape(s: string) {
    && |s| == 8
    && IsDigit(s[0]) && IsDigit(s[1]) && s[2] == ':'
    && IsDigit(s[3]) && IsDigit(s[4]) && s[5] == ':'
    && IsDigit(s[6]) && IsDigit(s[7])
  }

  function DigitChar(n: nat): (c: char)
    requires n < 10
    ensures IsDigit(c)
  {
    ('0' as int + n) as char
  }

  function DigitValue(c: char): (n: nat)
    requires IsDigit(c)
    ensures n < 10
  {
    c as int - '0' as int
  }

  /** Two decimal digits, zero-padded. */
  function Pad2(n: nat): (r: string)
    requires n < 100
    ensures |r| == 2 && IsDigit(r[0]) && IsDigit(r[1])
    ensures DigitValue(r[0]) * 10 + DigitValue(r[1]) == n
  {
    [DigitChar(n / 10), DigitChar(n % 10)]
  }

  /** Three two-digit fields joined by colons; no field is range-checked. */
  function Format(h: nat, m: nat, sec: nat): string
    requires h < 100 && m < 100 && sec < 100
  {
    Pad2(h) + ":" + Pad2(m) + ":" + Pad2(sec)
  }

  /** Reads the three two-digit fields back out of a string of the shape. */
  function Parse(s: string): (t: (nat, nat, nat))
    requires HasTimeShape(s)
    ensures t.0 < 100 && t.1 < 100 && t.2 < 100
  {
    (DigitValue(s[0]) * 10 + DigitValue(s[1]),
     DigitValue(s[3]) * 10 + DigitValue(s[4]),
     DigitValue(s[6]) * 10 + DigitValue(s[7]))
  }

  lemma FormatParse(s: string)
    requires HasTimeShape(s)
    ensures Format(Parse(s).0, Parse(s).1, Parse(s).2) == s
  {
  }

  lemma ParseFormat(h: nat, m: nat, sec: nat)
    requires h < 100 && m < 100 && sec < 100
    ensures HasTimeShape(Format(h, m, sec))
    ensures Parse(Format(h, m, sec)) == (h, m, sec)
  {
  }

  /** The shape is exactly the set of strings that three two-digit fields
      print to: it constrains digits, not hour, minute or second ranges. */
  lemma ShapeIsTwoDigitFields(s: string)
    ensures HasTimeShape(s) <==>
      exists h: nat, m: nat, sec: nat ::
        h < 100 && m < 100 && sec < 100 && s == Format(h, m, sec)
  {
    if HasTimeShape(s) {
      FormatParse(s);
      var t := Parse(s);
      assert s == Format(t.0, t.1, t.2);
    } else {
      forall h: nat, m: nat, sec: nat | h < 100 && m < 100 && sec < 100
        ensures s != Format(h, m, sec)
      {
        ParseFormat(h, m, sec);
      }
    }
  }

  /** "99:99:99" is no time of day, yet it has the shape. */
  lemma ShapeNotRange()
    ensures HasTimeShape("99:99:99")
    ensures Parse("99:99:99") == (99, 99, 99)
    ensures !HasTimeShape("8:00:00") && !HasTimeShape("08:00:00 ")
  {
  }
}
