/** The string operations the modelled files share: JavaScript `trim` and ASCII lower-casing. */
module Text {

  /** The white space and line terminators that `String.prototype.trim` removes. */
  predicate IsSpace(c: char) {
    || '\U{0009}' <= c <= '\U{000D}' || c == ' ' || c == '\U{00A0}' || c == '\U{1680}'
    || '\U{2000}' <= c <= '\U{200A}' || c == '\U{2028}' || c == '\U{2029}' || c == '\U{202F}'
    || c == '\U{205F}' || c == '\U{3000}' || c == '\U{FEFF}'
  }

  predicate Trimmed(s: string) {
    s == "" || (!IsSpace(s[0]) && !IsSpace(s[|s| - 1]))
  }

  function TrimStart(s: string): (r: string)
    ensures r == "" || !IsSpace(r[0])
    ensures |r| <= |s| && r == s[|s| - |r|..]
  {
    if s != "" && IsSpace(s[0]) then TrimStart(s[1..]) else s
  }

  function TrimEnd(s: string): (r: string)
    ensures r == "" || !IsSpace(r[|r| - 1])
    ensures |r| <= |s| && r == s[..|r|]
  {
    if s != "" && IsSpace(s[|s| - 1]) then TrimEnd(s[..|s| - 1]) else s
  }

  /** Trimming yields a trimmed string and changes no string that is trimmed already. */
  function Trim(s: string): (r: string)
    ensures Trimmed(r)
    ensures Trimmed(s) ==> r == s
    ensures |r| <= |s|
  {
    TrimEnd(TrimStart(s))
  }

  lemma {:induction false} TrimStartTakesSpace(s: string, i: nat)
    requires i < |s| - |TrimStart(s)|
    ensures IsSpace(s[i])
    decreases |s|
  {
    hide IsSpace;
    if i == 0 {
    } else {
      TrimStartTakesSpace(s[1..], i - 1);
    }
  }

  lemma {:induction false} TrimEndTakesSpace(s: string, i: nat)
    requires |TrimEnd(s)| <= i < |s|
    ensures IsSpace(s[i])
    decreases |s|
  {
    hide IsSpace;
    if i == |s| - 1 {
    } else {
      TrimEndTakesSpace(s[..|s| - 1], i);
    }
  }

  /** What trimming takes away is space at the two ends, and nothing else. */
  lemma TrimTakesOnlySpace(s: string) returns (from: nat)
    ensures from + |Trim(s)| <= |s| && Trim(s) == s[from..from + |Trim(s)|]
    ensures forall i :: 0 <= i < |s| && !(from <= i < from + |Trim(s)|) ==> IsSpace(s[i])
  {
    hide IsSpace, TrimStart, TrimEnd;
    var tail := TrimStart(s);
    from := |s| - |tail|;
    var r := TrimEnd(tail);
    assert r == tail[..|r|] == s[from..from + |r|];
    forall i | 0 <= i < |s| && !(from <= i < from + |Trim(s)|)
      ensures IsSpace(s[i])
    {
      if i < from {
        TrimStartTakesSpace(s, i);
      } else {
        TrimEndTakesSpace(tail, i - from);
        assert s[i] == tail[i - from];
      }
    }
  }

  function LowerChar(c: char): (r: char) {
    if 'A' <= c <= 'Z' then c - 'A' + 'a' else c
  }

  function Lower(s: string): (r: string)
    ensures |r| == |s|
    ensures forall i :: 0 <= i < |s| ==> r[i] == LowerChar(s[i])
  {
    seq(|s|, i requires 0 <= i < |s| => LowerChar(s[i]))
  }

  /** The twenty-five characters that trimming removes, by code. */
  lemma SpaceCodes(c: char)
    ensures IsSpace(c) <==>
              c as int in {9, 10, 11, 12, 13, 32, 160, 5760, 8192, 8193, 8194, 8195, 8196, 8197, 8198, 8199, 8200, 8201,
                           8202, 8232, 8233, 8239, 8287, 12288, 65279}
  {
  }

  /** The letters A to Z, whose codes are 65 to 90, move by 32; every other character stays. */
  lemma LowerCodes(c: char)
    ensures LowerChar(c) as int == if 65 <= c as int <= 90 then c as int + 32 else c as int
  {
  }
}
