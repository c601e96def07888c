/** Uppercasing of ASCII names. */
module AsciiNames {
  function ToUpperChar(c: char): char {
    if 'a' <= c <= 'z' then c - 32 as char else c
  }

  function ToUpper(s: string): (u: string)
    ensures |u| == |s|
  {
    if s == "" then "" else [ToUpperChar(s[0])] + ToUpper(s[1..])
  }

  predicate IsUpper(s: string) {
    ToUpper(s) == s
  }

  lemma {:induction false} ToUpperByChar(s: string)
    ensures forall i :: 0 <= i < |s| ==> ToUpper(s)[i] == ToUpperChar(s[i])
  {
    if s != "" {
      ToUpperByChar(s[1..]);
    }
  }

  /** Exactly the letters a to z change, each to its capital 32 places below; so none of them is left. */
  lemma UppercaseExactly(s: string, i: nat)
    requires i < |s|
    ensures 97 <= s[i] as int <= 122 ==> ToUpper(s)[i] as int == s[i] as int - 32
    ensures !(97 <= s[i] as int <= 122) ==> ToUpper(s)[i] == s[i]
    ensures !(97 <= ToUpper(s)[i] as int <= 122)
  {
    ToUpperByChar(s);
    assert ToUpper(s)[i] == ToUpperChar(s[i]);
  }

  lemma {:induction false} ToUpperConcat(a: string, b: string)
    ensures ToUpper(a + b) == ToUpper(a) + ToUpper(b)
  {
    if a == "" {
      assert a + b == b;
    } else {
      assert (a + b)[1..] == a[1..] + b;
      ToUpperConcat(a[1..], b);
    }
  }

  lemma {:induction false} ToUpperIdempotent(s: string)
    ensures IsUpper(ToUpper(s))
  {
    if s != "" {
      ToUpperIdempotent(s[1..]);
      assert ToUpper(s)[1..] == ToUpper(s[1..]);
    }
  }

  /** A string is uppercase exactly when both of its parts are. */
  lemma UpperParts(a: string, b: string)
    ensures IsUpper(a + b) <==> IsUpper(a) && IsUpper(b)
  {
    ToUpperConcat(a, b);
    if IsUpper(a + b) {
      assert (ToUpper(a) + ToUpper(b))[..|a|] == ToUpper(a) && (a + b)[..|a|] == a;
      assert (ToUpper(a) + ToUpper(b))[|a|..] == ToUpper(b) && (a + b)[|a|..] == b;
    }
  }
}
