/** The random names of temporary files: c_tmpname() of c_path.c. */
module TmpNames {
  /** Five random bits. */
  type Digit = d: int | 0 <= d < 32

  function DigitChar(d: Digit): char { if d > 9 then ('a' as int + d - 10) as char else ('0' as int + d) as char }

  /** The value of a digit in base 32. */
  function DigitValue(c: char): int { if 'a' <= c then c as int - 'a' as int + 10 else c as int - '0' as int }

  function Suffix(digits: seq<Digit>): (s: string)
    ensures |s| == |digits|
  {
    seq(|digits|, i requires 0 <= i < |digits| => DigitChar(digits[i]))
  }

  /** The template ends in six X, the mark of a name that has not been drawn yet. */
  predicate Template(s: string) { |s| >= 6 && s[|s| - 6..] == "XXXXXX" }

  /** Draws a name: fills in the six X, or fails and changes nothing. */
  method TmpName(template: array<char>, digits: seq<Digit>) returns (ok: bool)
    requires |digits| == 6
    modifies template
    ensures ok <==> Template(old(template[..]))
    ensures template[..] == if ok then old(template[..template.Length - 6]) + Suffix(digits) else old(template[..])
  {
    var start := template.Length - 6;
    if start < 0 {
      return false;
    }
    var i := 0;
    while i < 6
      invariant 0 <= i <= 6 && template[start..start + i] == "XXXXXX"[..i]
    {
      if template[start + i] != 'X' {
        assert template[start..][i] != "XXXXXX"[i];
        return false;
      }
      i := i + 1;
    }
    assert template[start..] == "XXXXXX";
    i := 0;
    while i < 6
      invariant 0 <= i <= 6
      invariant template[..start] == old(template[..start])
      invariant template[start..start + i] == Suffix(digits)[..i]
    {
      template[start + i] := DigitChar(digits[i]);
      i := i + 1;
    }
    assert template[start..] == Suffix(digits);
    assert template[..] == template[..start] + template[start..];
    return true;
  }

  /** A drawn name is no template any more: a second draw always fails. */
  lemma DrawnOnce(stem: string, digits: seq<Digit>)
    requires |digits| == 6
    ensures !Template(stem + Suffix(digits))
  {
    var s := stem + Suffix(digits);
    assert s[|s| - 6..][0] == DigitChar(digits[0]) && "XXXXXX"[0] == 'X';
  }

  /** Different digits make different names, of 0 to 9 and a to v only. */
  lemma SuffixIsRead(digits: seq<Digit>, more: seq<Digit>)
    ensures forall i | 0 <= i < |digits| ::
              var c := Suffix(digits)[i]; ('0' <= c <= '9' || 'a' <= c <= 'v') && DigitValue(c) == digits[i]
    ensures Suffix(digits) == Suffix(more) <==> digits == more
  {
    if Suffix(digits) == Suffix(more) {
      forall i | 0 <= i < |digits| ensures digits[i] == more[i] {
        assert DigitValue(Suffix(digits)[i]) == DigitValue(Suffix(more)[i]);
      }
    }
  }

  lemma NoSlash(digits: seq<Digit>)
    ensures '/' !in Suffix(digits)
  {
  }
}
