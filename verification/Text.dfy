/** strings.TrimSpace and strings.ToUpper. */
module Text {

  /** The characters unicode.IsSpace accepts. */
  predicate IsSpace(c: char) {
    var n := c as int;
    0x9 <= n <= 0xD || n == 0x20 || n == 0x85 || n == 0xA0 || n == 0x1680 || 0x2000 <= n <= 0x200A ||
    n == 0x2028 || n == 0x2029 || n == 0x202F || n == 0x205F || n == 0x3000
  }

  function TrimLeft(s: string): string {
    if s != "" && IsSpace(s[0]) then TrimLeft(s[1..]) else s
  }

  function TrimRight(s: string): string {
    if s != "" && IsSpace(s[|s| - 1]) then TrimRight(s[..|s| - 1]) else s
  }

  function TrimSpace(s: string): string { TrimRight(TrimLeft(s)) }

  /** No space at either end. */
  predicate Trimmed(s: string) { s != "" ==> !IsSpace(s[0]) && !IsSpace(s[|s| - 1]) }

  lemma {:induction false} TrimLeftStart(s: string)
    ensures TrimLeft(s) != "" ==> !IsSpace(TrimLeft(s)[0])
  {
    if s != "" && IsSpace(s[0]) {
      TrimLeftStart(s[1..]);
    }
  }

  lemma {:induction false} TrimRightEnds(s: string)
    ensures TrimRight(s) <= s
    ensures TrimRight(s) != "" ==> !IsSpace(TrimRight(s)[|TrimRight(s)| - 1])
  {
    if s != "" && IsSpace(s[|s| - 1]) {
      TrimRightEnds(s[..|s| - 1]);
    }
  }

  lemma TrimSpaceTrimmed(s: string)
    ensures Trimmed(TrimSpace(s))
  {
    TrimLeftStart(s);
    TrimRightEnds(TrimLeft(s));
  }

  predicate AllSpaces(s: string) { forall i :: 0 <= i < |s| ==> IsSpace(s[i]) }

  lemma {:induction false} TrimLeftDropsSpaces(s: string)
    ensures |TrimLeft(s)| <= |s| && s[|s| - |TrimLeft(s)|..] == TrimLeft(s) && AllSpaces(s[..|s| - |TrimLeft(s)|])
  {
    if s != "" && IsSpace(s[0]) {
      TrimLeftDropsSpaces(s[1..]);
      var k := |s[1..]| - |TrimLeft(s)|;
      assert s[..k + 1] == [s[0]] + s[1..][..k];
    }
  }

  lemma {:induction false} TrimRightDropsSpaces(s: string)
    ensures |TrimRight(s)| <= |s| && s[..|TrimRight(s)|] == TrimRight(s) && AllSpaces(s[|TrimRight(s)|..])
  {
    if s != "" && IsSpace(s[|s| - 1]) {
      var t := s[..|s| - 1];
      TrimRightDropsSpaces(t);
      assert s[|TrimRight(s)|..] == t[|TrimRight(s)|..] + [s[|s| - 1]];
    }
  }

  /** Only spaces go: text is spaces, its trimmed form, and spaces. With TrimSpaceTrimmed this fixes the result. */
  lemma TrimSpaceKeeps(s: string)
    ensures exists before, after :: s == before + TrimSpace(s) + after && AllSpaces(before) && AllSpaces(after)
  {
    hide TrimLeft, TrimRight;
    TrimLeftDropsSpaces(s);
    TrimRightDropsSpaces(TrimLeft(s));
    var l, r := TrimLeft(s), TrimSpace(s);
    assert l == r + l[|r|..];
    assert s == s[..|s| - |l|] + r + l[|r|..];
  }

  /** Trimming changes nothing exactly when there is nothing to trim. */
  lemma TrimSpaceFixedIff(s: string)
    ensures TrimSpace(s) == s <==> Trimmed(s)
  {
    TrimSpaceTrimmed(s);
  }

  function UpperChar(c: char): char {
    if 'a' <= c <= 'z' then c - 'a' + 'A'
    else if c as int == 0x131 then 'I'
    else if c as int == 0x17F then 'S'
    else c
  }

  /** Upper case of ASCII letters, and of the two other letters whose upper case is ASCII: dotless i and long s. What is
      left as it is has no upper case in ASCII, so it makes no difference to a comparison with ASCII text. */
  function ToUpper(s: string): (r: string)
    ensures |r| == |s|
  {
    seq(|s|, i requires 0 <= i < |s| => UpperChar(s[i]))
  }

  lemma ToUpperIdempotent(s: string)
    ensures ToUpper(ToUpper(s)) == ToUpper(s)
  {
    var u := ToUpper(s);
    assert forall i :: 0 <= i < |s| ==> UpperChar(u[i]) == u[i];
  }
}
