/** C strings held in character buffers: what `c_str()` and `char*`
    arguments see is the text up to the first NUL character. */
module CStrings {

  /** The C string held by a character buffer: everything before the first NUL. */
  function CStr(s: seq<char>): (r: seq<char>)
    ensures |r| <= |s|
  {
    if s == [] || s[0] == '\0' then [] else [s[0]] + CStr(s[1..])
  }

  /** The C string is the longest NUL-free prefix of the buffer; it is the
      whole buffer exactly when the buffer holds no NUL. */
  lemma {:induction false} CStrPrefix(s: seq<char>)
    ensures CStr(s) == s[..|CStr(s)|]
    ensures '\0' !in CStr(s)
    ensures |CStr(s)| < |s| ==> s[|CStr(s)|] == '\0'
    ensures CStr(s) == s <==> '\0' !in s
    decreases |s|
  {
    if s != [] && s[0] != '\0' {
      CStrPrefix(s[1..]);
      assert s == [s[0]] + s[1..];
      if '\0' in s {
        assert '\0' in s[1..];
      }
    }
  }

  /** Rewriting the first character of a buffer whose C string starts there. */
  lemma CStrFirst(s: seq<char>, c: char)
    requires s != [] && s[0] != '\0' && c != '\0'
    ensures CStr(s[0 := c]) == CStr(s)[0 := c]
  {
    assert s[0 := c][1..] == s[1..];
  }
}
