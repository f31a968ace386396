/** The form that do_request reads from the body of a login or a registration. */
module HttpForm {
  import opened CString

  const FIELD_SIZE: nat := 100

  /** Where the name ends: at the first '&' behind "user=" */
  function NameEnd(s: seq<char>): (i: nat)
    requires |s| >= 5
    ensures 5 <= i <= |s|
  {
    FirstFrom(s, 5, {'&'})
  }

  /** The loops of the source run to an '&' and to the end, and write into two arrays of 100 characters. */
  predicate Readable(s: seq<char>) {
    && |s| >= 5 && NameEnd(s) + 10 <= |s|
    && NameEnd(s) - 5 < FIELD_SIZE && |s| - NameEnd(s) - 10 < FIELD_SIZE
    && forall i | 0 <= i < |s| :: s[i] != NUL
  }

  /** `s` is the C string m_string; the arrays hold the name and the password, each with its NUL. */
  method ReadForm(s: seq<char>) returns (name: array<char>, password: array<char>)
    requires Readable(s)
    ensures fresh(name) && fresh(password)
    ensures CStr(name[..], 0) == s[5..NameEnd(s)]
    ensures CStr(password[..], 0) == s[NameEnd(s) + 10..]
  {
    var i;
    name, i := ReadName(s);
    password := ReadPassword(s, i + 10);
  }

  method ReadName(s: seq<char>) returns (name: array<char>, i: nat)
    requires Readable(s)
    ensures fresh(name) && i == NameEnd(s) && CStr(name[..], 0) == s[5..i]
  {
    name := new char[FIELD_SIZE];
    FirstFromIs(s, 5, {'&'});
    i := 5;
    while s[i] != '&'
      invariant 5 <= i <= NameEnd(s)
      invariant forall k | 5 <= k < i :: name[k - 5] == s[k]
      decreases NameEnd(s) - i
    {
      name[i - 5] := s[i];
      i := i + 1;
    }
    name[i - 5] := NUL;
    StringCopied(name[..], s, 5, i);
  }

  method ReadPassword(s: seq<char>, start: nat) returns (password: array<char>)
    requires start <= |s| && |s| - start < FIELD_SIZE && forall i | 0 <= i < |s| :: s[i] != NUL
    ensures fresh(password) && CStr(password[..], 0) == s[start..]
  {
    password := new char[FIELD_SIZE];
    var i, j := start, 0;
    while i < |s|
      invariant start <= i <= |s| && i == start + j
      invariant forall k | start <= k < i :: password[k - start] == s[k]
    {
      password[j] := s[i];
      i, j := i + 1, j + 1;
    }
    password[j] := NUL;
    StringCopied(password[..], s, start, i);
  }

  lemma StringCopied(b: seq<char>, s: seq<char>, start: nat, end: nat)
    requires start <= end <= |s| && end - start < |b| && b[end - start] == NUL
    requires forall k | start <= k < end :: b[k - start] == s[k] != NUL
    ensures CStr(b, 0) == s[start..end]
  {
    forall k | 0 <= k < end - start ensures b[k] == s[start..end][k] != NUL {
      assert b[(start + k) - start] == s[start + k];
    }
    CStrUnique(b, 0, s[start..end]);
  }

  /** What the pages send: user=...&password=... */
  function PrintForm(name: seq<char>, password: seq<char>): seq<char> {
    "user=" + name + "&password=" + password
  }

  /** Printing a form and reading it gives the name and the password back. */
  lemma FormRoundTrip(name: seq<char>, password: seq<char>)
    requires |name| < FIELD_SIZE && |password| < FIELD_SIZE
    requires forall i | 0 <= i < |name| :: name[i] != '&' && name[i] != NUL
    requires forall i | 0 <= i < |password| :: password[i] != NUL
    ensures var s := PrintForm(name, password);
      Readable(s) && s[5..NameEnd(s)] == name && s[NameEnd(s) + 10..] == password
  {
    var s := PrintForm(name, password);
    FirstFromIs(s, 5, {'&'});
    var i := NameEnd(s);
    assert s[5 + |name|] == '&';
    assert forall k | 5 <= k < 5 + |name| :: s[k] == name[k - 5];
    assert !(i < 5 + |name|) && !(5 + |name| < i);
    assert s == ("user=" + name + "&password=") + password;
    assert s[i + 10..] == password;
    assert s[5..i] == name;
  }
}
