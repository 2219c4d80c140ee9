/** String trimming as JavaScript's String.prototype.trim performs it (addTask trims the input). */
module Text {

  /** The characters `trim` strips: ECMAScript WhiteSpace (tab, vertical tab, form feed, space,
      no-break space, byte-order mark, every Zs character) and LineTerminator (LF, CR, LS, PS). */
  predicate IsJsWhitespace(c: char) {
    var code := c as int;
    || 0x09 <= code <= 0x0D || code == 0x20 || code == 0xA0 || code == 0x1680
    || 0x2000 <= code <= 0x200A || code == 0x2028 || code == 0x2029 || code == 0x202F
    || code == 0x205F || code == 0x3000 || code == 0xFEFF
  }

  const JsWhitespace: iset<char> := iset c: char | IsJsWhitespace(c)

  /** Every character of `s` belongs to `ws`. */
  predicate AllIn(s: string, ws: iset<char>) {
    forall i :: 0 <= i < |s| ==> s[i] in ws
  }

  predicate AllWhitespace(s: string) {
    AllIn(s, JsWhitespace)
  }

  /** Drops the leading characters of `ws`: the result is a suffix of `s`, what was dropped
      lies in `ws`, and the result does not start with a character of `ws`. */
  function TrimStart(s: string, ws: iset<char>): (r: string)
    ensures |r| <= |s| && r == s[|s| - |r|..]
    ensures forall k :: 0 <= k < |s| - |r| ==> s[k] in ws
    ensures r == [] || (r[0] !in ws && s[|s| - |r|] == r[0])
  {
    if |s| > 0 && s[0] in ws then
      var r := TrimStart(s[1..], ws);
      assert forall k :: 1 <= k < |s| ==> s[k] == s[1..][k - 1];
      r
    else
      s
  }

  /** Drops the trailing characters of `ws`: the result is a prefix of `s`, what was dropped
      lies in `ws`, and the result does not end with a character of `ws`. */
  function TrimEnd(s: string, ws: iset<char>): (r: string)
    ensures |r| <= |s| && r == s[..|r|]
    ensures forall k :: |r| <= k < |s| ==> s[k] in ws
    ensures r == [] || (r[|r| - 1] !in ws && r[0] == s[0])
  {
    if |s| > 0 && s[|s| - 1] in ws then
      var r := TrimEnd(s[..|s| - 1], ws);
      assert forall k :: 0 <= k < |s| - 1 ==> s[k] == s[..|s| - 1][k];
      r
    else
      s
  }

  /** `s.trim()`: empty exactly when `s` is whitespace only; otherwise it neither starts nor
      ends with whitespace. */
  function Trim(s: string): (r: string)
    ensures r == [] <==> AllWhitespace(s)
    ensures r != [] ==> r[0] !in JsWhitespace && r[|r| - 1] !in JsWhitespace
  {
    TrimEmptyIff(s, JsWhitespace);
    TrimEnds(s, JsWhitespace);
    TrimEnd(TrimStart(s, JsWhitespace), JsWhitespace)
  }

  lemma TrimEmptyIff(s: string, ws: iset<char>)
    ensures TrimEnd(TrimStart(s, ws), ws) == [] <==> AllIn(s, ws)
  {
    var u := TrimStart(s, ws);
    if TrimEnd(u, ws) == [] {
      // every character of u would be dropped, yet u does not start with one of ws
      assert u == [];
    }
  }

  lemma TrimEnds(s: string, ws: iset<char>)
    ensures var r := TrimEnd(TrimStart(s, ws), ws);
      r != [] ==> r[0] !in ws && r[|r| - 1] !in ws
  {
  }

  /** Trimming twice is trimming once. */
  lemma TrimIdempotent(s: string)
    ensures Trim(Trim(s)) == Trim(s)
  {
    var r := Trim(s);
    if r != [] {
      assert TrimStart(r, JsWhitespace) == r;
      assert TrimEnd(r, JsWhitespace) == r;
    }
  }
}
