/** The "valid email address" of the HTML Living Standard (section
    4.10.5.1.5, the E-mail state of the `input` element): the browser refuses
    to submit a form whose non-empty `type="email"` field does not hold one.
    An address is a non-empty local part, '@', and one or more dot-separated
    labels of 1 to 63 letters, digits or hyphens that start and end with a
    letter or digit. */
module EmailAddress {
  import opened Wrappers
  import Seqs

  predicate IsAlnum(c: char)
  {
    'a' <= c <= 'z' || 'A' <= c <= 'Z' || '0' <= c <= '9'
  }

  predicate IsLocalChar(c: char)
  {
    IsAlnum(c) || c in ".!#$%&'*+/=?^_`{|}~-"
  }

  predicate ValidLocal(s: string)
  {
    |s| >= 1 && forall k :: 0 <= k < |s| ==> IsLocalChar(s[k])
  }

  predicate ValidLabel(l: string)
  {
    && 1 <= |l| <= 63
    && IsAlnum(l[0])
    && IsAlnum(l[|l| - 1])
    && forall k :: 0 <= k < |l| ==> IsAlnum(l[k]) || l[k] == '-'
  }

  function IsChar(c: char): char -> bool
  {
    (x: char) => x == c
  }

  /** Dot-separated labels, each valid. */
  function ValidDomain(d: string): bool
    decreases |d|
  {
    match Seqs.FindFirst(d, IsChar('.'))
    case None => ValidLabel(d)
    case Some(j) => ValidLabel(d[..j]) && ValidDomain(d[j + 1..])
  }

  /** Splits at the first '@': everything before it is the local part. */
  function IsValid(e: string): (r: bool)
    ensures r ==> '@' in e
  {
    match Seqs.FindFirst(e, IsChar('@'))
    case None => false
    case Some(i) =>
      ValidLocal(e[..i]) && ValidDomain(e[i + 1..])
  }

  /** The first '@' of a string whose prefix before position `i` is a valid
      local part is at `i`, if `e[i]` is '@'. */
  lemma FirstAtAfterLocal(e: string, i: nat)
    requires i < |e| && e[i] == '@' && ValidLocal(e[..i])
    ensures Seqs.FindFirst(e, IsChar('@')) == Some(i)
  {
    var f := Seqs.FindFirst(e, IsChar('@'));
    assert IsChar('@')(e[i]);
    assert forall j :: 0 <= j < i ==> e[j] == e[..i][j];
    assert forall j :: 0 <= j < i ==> e[j] != '@';
  }

  /** An address is valid iff some '@' splits it into a valid local part and
      a valid domain. */
  lemma {:induction false} IsValidMeaning(e: string)
    ensures IsValid(e) <==>
      exists i :: 0 <= i < |e| && e[i] == '@' && ValidLocal(e[..i]) && ValidDomain(e[i + 1..])
  {
    if exists i :: 0 <= i < |e| && e[i] == '@' && ValidLocal(e[..i]) && ValidDomain(e[i + 1..]) {
      var i :| 0 <= i < |e| && e[i] == '@' && ValidLocal(e[..i]) && ValidDomain(e[i + 1..]);
      FirstAtAfterLocal(e, i);
    }
    if IsValid(e) {
      var i := Seqs.FindFirst(e, IsChar('@')).value;
      assert e[i] == '@';
    }
  }

  /** Three addresses, decided as a browser decides them. */
  lemma Examples()
    ensures !IsValid("abc")
    ensures !IsValid("a@")
    ensures IsValid("a@b")
  {
  }
}
