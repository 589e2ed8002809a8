/**
 * What the server does with text that comes from outside: trimming, and the clean-up of an error message
 * (`server/runtime_config_delivery.go`). A string is a sequence of Unicode characters; lengths are those of its
 * UTF-8 form.
 */
module Text {
  const ERROR_LIMIT: nat := 512

  /** White space as Unicode defines it. */
  predicate IsSpace(c: char) {
    var n := c as int;
    9 <= n <= 13 || n == 0x20 || n == 0x85 || n == 0xA0 || n == 0x1680 || 0x2000 <= n <= 0x200A
    || n == 0x2028 || n == 0x2029 || n == 0x202F || n == 0x205F || n == 0x3000
  }

  function TrimLeft(s: string): string {
    if s != [] && IsSpace(s[0]) then TrimLeft(s[1..]) else s
  }

  function TrimRight(s: string): string {
    if s != [] && IsSpace(s[|s| - 1]) then TrimRight(s[..|s| - 1]) else s
  }

  function Trim(s: string): string {
    TrimRight(TrimLeft(s))
  }

  function Utf8Width(c: char): nat {
    var n := c as int;
    if n < 0x80 then 1 else if n < 0x800 then 2 else if n < 0x10000 then 3 else 4
  }

  function ByteLength(s: string): nat {
    if s == [] then 0 else ByteLength(s[..|s| - 1]) + Utf8Width(s[|s| - 1])
  }

  predicate IsControl(c: char) {
    (c as int) < 0x20 || c as int == 0x7F
  }

  function Printable(s: string): string {
    if s == [] then []
    else Printable(s[..|s| - 1]) + if IsControl(s[|s| - 1]) then [] else [s[|s| - 1]]
  }

  /** Drops whole characters from the end until the text fits. */
  function Cut(s: string, limit: nat): string {
    if ByteLength(s) <= limit then s else Cut(s[..|s| - 1], limit)
  }

  function Sanitized(message: string): string {
    Cut(Printable(Trim(message)), ERROR_LIMIT)
  }

  /** Trimming takes the longest run of white space from either end, and nothing else. */
  lemma TrimIsInner(s: string) returns (i: nat, j: nat)
    ensures i <= j <= |s| && Trim(s) == s[i..j]
    ensures forall k | 0 <= k < i || j <= k < |s| ::
      s[k] as int in
      {9, 10, 11, 12, 13, 0x20, 0x85, 0xA0, 0x1680, 0x2000, 0x2001, 0x2002, 0x2003, 0x2004, 0x2005, 0x2006, 0x2007,
       0x2008, 0x2009, 0x200A, 0x2028, 0x2029, 0x202F, 0x205F, 0x3000}
    ensures i < j ==> !IsSpace(s[i]) && !IsSpace(s[j - 1])
  {
    i := LeftEnd(s);
    var end := RightEnd(TrimLeft(s));
    j := i + end;
    assert forall k | j <= k < |s| :: s[k] == TrimLeft(s)[k - i];
  }

  lemma {:induction false} LeftEnd(s: string) returns (i: nat)
    ensures i <= |s| && TrimLeft(s) == s[i..] && (i < |s| ==> !IsSpace(s[i]))
    ensures forall k | 0 <= k < i :: IsSpace(s[k])
  {
    if s != [] && IsSpace(s[0]) {
      var rest := LeftEnd(s[1..]);
      i := rest + 1;
      assert forall k | 1 <= k < i :: s[k] == s[1..][k - 1];
    } else {
      i := 0;
    }
  }

  lemma {:induction false} RightEnd(s: string) returns (j: nat)
    ensures j <= |s| && TrimRight(s) == s[..j] && (j > 0 ==> !IsSpace(s[j - 1]))
    ensures forall k | j <= k < |s| :: IsSpace(s[k])
  {
    if s != [] && IsSpace(s[|s| - 1]) {
      j := RightEnd(s[..|s| - 1]);
    } else {
      j := |s|;
    }
  }

  /** The length in bytes adds up, and every character takes the bytes that UTF-8 gives it. */
  lemma {:induction false} ByteLengthAdds(s: string, t: string)
    ensures ByteLength(s + t) == ByteLength(s) + ByteLength(t)
    ensures |t| == 1 ==>
      (ByteLength(t) == if t[0] as int <= 0x7F then 1 else if t[0] as int <= 0x7FF then 2
                        else if t[0] as int <= 0xFFFF then 3 else 4)
  {
    if t == [] {
      assert s + t == s;
    } else {
      ByteLengthAdds(s, t[..|t| - 1]);
      assert (s + t)[..|s + t| - 1] == s + t[..|t| - 1];
      assert |t| == 1 ==> t[..|t| - 1] == [];
    }
  }

  /** Every character stays in its place unless it is a control character, which goes. */
  lemma {:induction false} PrintableAdds(s: string, t: string)
    ensures Printable(s + t) == Printable(s) + Printable(t)
    ensures |t| == 1 ==> (Printable(t) == if (t[0] as int) <= 31 || t[0] as int == 127 then [] else t)
  {
    if t == [] {
      assert s + t == s;
    } else {
      PrintableAdds(s, t[..|t| - 1]);
      assert (s + t)[..|s + t| - 1] == s + t[..|t| - 1];
      assert |t| == 1 ==> t[..|t| - 1] == [];
    }
  }

  lemma {:induction false} PrintableHasNoControls(s: string)
    ensures forall c :: c in Printable(s) ==> !IsControl(c) && c in s
  {
    if s != [] {
      PrintableHasNoControls(s[..|s| - 1]);
    }
  }

  lemma {:induction false} LongerIsLonger(s: string, n: nat, m: nat)
    requires n <= m <= |s|
    ensures ByteLength(s[..n]) <= ByteLength(s[..m])
    decreases m
  {
    if n < m {
      LongerIsLonger(s, n, m - 1);
      assert s[..m][..m - 1] == s[..m - 1];
    }
  }

  /** The cut is a prefix that fits, and no longer prefix fits. */
  lemma {:induction false} CutIsLongestPrefix(s: string, limit: nat)
    ensures Cut(s, limit) <= s && ByteLength(Cut(s, limit)) <= limit
    ensures forall n :: |Cut(s, limit)| < n <= |s| ==> ByteLength(s[..n]) > limit
  {
    if ByteLength(s) > limit {
      var front := s[..|s| - 1];
      CutIsLongestPrefix(front, limit);
      assert s[..|s|] == s;
      assert forall n :: 0 <= n <= |front| ==> s[..n] == front[..n];
    }
  }

  /** A reported error has no control characters, fits 512 bytes, and is the longest such start of the message. */
  lemma SanitizedIsLongestStart(message: string)
    ensures var clean, r := Printable(Trim(message)), Sanitized(message);
            && r <= clean && ByteLength(r) <= 512 && (forall c :: c in r ==> !IsControl(c))
            && (forall n :: |r| < n <= |clean| ==> ByteLength(clean[..n]) > 512)
  {
    var clean := Printable(Trim(message));
    CutIsLongestPrefix(clean, ERROR_LIMIT);
    PrintableHasNoControls(Trim(message));
    assert forall c :: c in Sanitized(message) ==> c in clean;
  }

  method Sanitize(message: string) returns (r: string)
    ensures r == Sanitized(message)
  {
    var trimmed := Trim(message);
    r := [];
    for i := 0 to |trimmed|
      invariant r == Printable(trimmed[..i])
    {
      assert trimmed[..i + 1][..i] == trimmed[..i];
      if !IsControl(trimmed[i]) {
        r := r + [trimmed[i]];
      }
    }
    assert trimmed[..|trimmed|] == trimmed;
    while ByteLength(r) > ERROR_LIMIT
      invariant Cut(r, ERROR_LIMIT) == Sanitized(message)
    {
      r := r[..|r| - 1];
    }
  }
}
