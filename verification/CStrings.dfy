/** Strings as C sees them: up to the first NUL. */
module CStrings {

  /** The position of the first NUL, or the length. */
  function FirstNul(s: string): (i: nat)
    ensures i <= |s| && (i < |s| ==> s[i] == '\0') && forall j :: 0 <= j < i ==> s[j] != '\0'
  {
    if s == "" || s[0] == '\0' then 0 else 1 + FirstNul(s[1..])
  }

  predicate NulFree(s: string) { forall i :: 0 <= i < |s| ==> s[i] != '\0' }

  /** The C string made of the low bytes of the characters. */
  function CString(s: string): string
  {
    var bytes := seq(|s|, i requires 0 <= i < |s| => (s[i] as int % 256) as char);
    bytes[..FirstNul(bytes)]
  }

  function UpToNul(cells: string): string { cells[..FirstNul(cells)] }

  lemma FirstNulIs(s: string, i: nat)
    requires i <= |s| && (forall j :: 0 <= j < i ==> s[j] != '\0') && (i < |s| ==> s[i] == '\0')
    ensures FirstNul(s) == i
  {
  }

  lemma CStringAscii(s: string)
    requires forall i :: 0 <= i < |s| ==> 0 < s[i] as int < 128
    ensures CString(s) == s
  {
    var bytes := seq(|s|, i requires 0 <= i < |s| => (s[i] as int % 256) as char);
    assert bytes == s;
    FirstNulIs(s, |s|);
  }

  function Nuls(n: nat): string { seq(n, _ => '\0') }

  lemma NulFreeStays(s: string)
    ensures UpToNul(s) == s <==> NulFree(s)
  {
    if UpToNul(s) == s {
      assert FirstNul(s) == |s|;
    } else if NulFree(s) {
      FirstNulIs(s, |s|);
    }
  }
}
