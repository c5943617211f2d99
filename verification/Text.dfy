// Strings: splitting and joining (backend/internal/handlers/readings.go and Go's strings package)
// and the order used for text columns. A Go string is a sequence of bytes; here one char is one byte.

module Text {

  // ---------------------------------------------------------------------------------------------
  // Order
  // ---------------------------------------------------------------------------------------------

  /** Text order by code point. */
  predicate TextLe(a: string, b: string) {
    if a == [] then true
    else if b == [] then false
    else a[0] < b[0] || (a[0] == b[0] && TextLe(a[1..], b[1..]))
  }

  lemma {:induction false} TextLeTotal(a: string, b: string)
    ensures TextLe(a, b) || TextLe(b, a)
  {
    if a == [] || b == [] {
    } else {
      TextLeTotal(a[1..], b[1..]);
    }
  }

  lemma {:induction false} TextLeAntisymmetric(a: string, b: string)
    requires TextLe(a, b) && TextLe(b, a)
    ensures a == b
  {
    if a == [] || b == [] {
    } else {
      TextLeAntisymmetric(a[1..], b[1..]);
      assert a == [a[0]] + a[1..] && b == [b[0]] + b[1..];
    }
  }

  lemma {:induction false} TextLeTransitive(a: string, b: string, c: string)
    requires TextLe(a, b) && TextLe(b, c)
    ensures TextLe(a, c)
  {
    if a == [] || b == [] || c == [] {
    } else if a[0] == b[0] == c[0] {
      TextLeTransitive(a[1..], b[1..], c[1..]);
    }
  }

  /** Lexicographic: a prefix comes first, otherwise the first difference decides by code point. */
  lemma {:induction false} TextLeIsLexicographic(a: string, b: string)
    ensures TextLe(a, b) <==>
            (|a| <= |b| && b[..|a|] == a) ||
            exists k :: 0 <= k < |a| && k < |b| && a[..k] == b[..k] && a[k] < b[k]
  {
    if a == [] {
      assert b[..0] == [];
    } else if b != [] && a[0] != b[0] {
      assert a[..0] == b[..0];
      assert a[0] < b[0] ==> TextLe(a, b);
      forall k | 0 < k <= |a| && k <= |b|
        ensures a[..k] != b[..k]
      {
        assert a[..k][0] != b[..k][0];
      }
    } else if b != [] {
      TextLeIsLexicographic(a[1..], b[1..]);
      SameHeadPrefix(a, b);
    }
  }

  lemma SameHeadPrefix(a: string, b: string)
    requires a != [] && b != [] && a[0] == b[0]
    ensures (|a| <= |b| && b[..|a|] == a) <==> (|a[1..]| <= |b[1..]| && b[1..][..|a[1..]|] == a[1..])
    ensures (exists k :: 0 <= k < |a| && k < |b| && a[..k] == b[..k] && a[k] < b[k]) <==>
            (exists k :: 0 <= k < |a[1..]| && k < |b[1..]| && a[1..][..k] == b[1..][..k] && a[1..][k] < b[1..][k])
  {
    var x, y := a[1..], b[1..];
    assert a == [a[0]] + x && b == [a[0]] + y;
    if |a| <= |b| {
      assert b[..|a|] == [a[0]] + y[..|x|];
    }
    forall k | 0 <= k <= |x| && k <= |y|
      ensures a[..k + 1] == b[..k + 1] <==> x[..k] == y[..k]
    {
      assert a[..k + 1] == [a[0]] + x[..k] && b[..k + 1] == [a[0]] + y[..k];
      assert a[..k + 1][1..] == x[..k] && b[..k + 1][1..] == y[..k];
    }
    if k :| 0 <= k < |a| && k < |b| && a[..k] == b[..k] && a[k] < b[k] {
      assert a[..(k - 1) + 1] == b[..(k - 1) + 1];
      assert x[..k - 1] == y[..k - 1] && x[k - 1] < y[k - 1];
    }
    if k :| 0 <= k < |x| && k < |y| && x[..k] == y[..k] && x[k] < y[k] {
      assert a[..k + 1] == b[..k + 1] && a[k + 1] < b[k + 1];
    }
  }

  /** All three order laws at once. */
  lemma TextLeOrder()
    ensures forall a, b :: TextLe(a, b) || TextLe(b, a)
    ensures forall a, b :: TextLe(a, b) && TextLe(b, a) ==> a == b
    ensures forall a, b, c :: TextLe(a, b) && TextLe(b, c) ==> TextLe(a, c)
  {
    forall a, b ensures TextLe(a, b) || TextLe(b, a) { TextLeTotal(a, b); }
    forall a, b | TextLe(a, b) && TextLe(b, a) ensures a == b { TextLeAntisymmetric(a, b); }
    forall a, b, c | TextLe(a, b) && TextLe(b, c) ensures TextLe(a, c) { TextLeTransitive(a, b, c); }
  }

  // ---------------------------------------------------------------------------------------------
  // Splitting and joining
  // ---------------------------------------------------------------------------------------------

  /** Go's strings.Join with a one-byte separator. */
  function Join(parts: seq<string>, sep: char): string {
    if parts == [] then ""
    else if |parts| == 1 then parts[0]
    else parts[0] + [sep] + Join(parts[1..], sep)
  }

  /** The pieces between the separators. */
  function Split(s: string, sep: char): (parts: seq<string>)
    ensures parts != []
  {
    if s == "" then [""]
    else
      var rest := Split(s[1..], sep);
      if s[0] == sep then [""] + rest else [[s[0]] + rest[0]] + rest[1..]
  }

  predicate AllFree(parts: seq<string>, sep: char) {
    forall i :: 0 <= i < |parts| ==> sep !in parts[i]
  }

  lemma {:induction false} SplitIsFree(s: string, sep: char)
    ensures AllFree(Split(s, sep), sep)
  {
    if s == "" {
    } else {
      SplitIsFree(s[1..], sep);
    }
  }

  /** Joining what was split gives the input back. */
  lemma {:induction false} JoinSplit(s: string, sep: char)
    ensures Join(Split(s, sep), sep) == s
  {
    if s == "" {
    } else {
      JoinSplit(s[1..], sep);
      var rest := Split(s[1..], sep);
      if s[0] == sep {
        assert Join([""] + rest, sep) == "" + [sep] + Join(rest, sep) by { assert ([""] + rest)[1..] == rest; }
      } else {
        assert ([[s[0]] + rest[0]] + rest[1..])[1..] == rest[1..];
      }
    }
  }

  /** Splitting what was joined gives the pieces back, when no piece holds the separator. */
  lemma {:induction false} SplitJoin(parts: seq<string>, sep: char)
    requires parts != [] && AllFree(parts, sep)
    ensures Split(Join(parts, sep), sep) == parts
  {
    if |parts| == 1 {
      SplitFree(parts[0], sep);
    } else {
      SplitJoin(parts[1..], sep);
      SplitAtSeparator(parts[0], Join(parts[1..], sep), sep);
      assert Join(parts, sep) == parts[0] + [sep] + Join(parts[1..], sep);
    }
  }

  lemma {:induction false} SplitFree(s: string, sep: char)
    requires sep !in s
    ensures Split(s, sep) == [s]
  {
    if s == "" {
    } else {
      SplitFree(s[1..], sep);
      assert [s[0]] + s[1..] == s;
    }
  }

  lemma {:induction false} SplitAtSeparator(head: string, tail: string, sep: char)
    requires sep !in head
    ensures Split(head + [sep] + tail, sep) == [head] + Split(tail, sep)
  {
    var s := head + [sep] + tail;
    if head == "" {
      assert s[1..] == tail;
    } else {
      SplitAtSeparator(head[1..], tail, sep);
      assert s[0] == head[0] && s[1..] == head[1..] + [sep] + tail;
      var rest := Split(s[1..], sep);
      assert rest == [head[1..]] + Split(tail, sep);
      assert rest[0] == head[1..] && rest[1..] == Split(tail, sep);
      assert [head[0]] + head[1..] == head;
    }
  }

  /** The pieces after one more character at the end, the step of the scanning loop. */
  function Extend(parts: seq<string>, c: char, sep: char): seq<string>
    requires parts != []
  {
    if c == sep then parts + [""] else parts[..|parts| - 1] + [parts[|parts| - 1] + [c]]
  }

  lemma {:induction false} SplitSnoc(s: string, c: char, sep: char)
    ensures Split(s + [c], sep) == Extend(Split(s, sep), c, sep)
  {
    if s == "" {
      assert s + [c] == [c];
      assert [c][1..] == "" && [c] + "" == [c] == "" + [c];
    } else {
      SplitSnoc(s[1..], c, sep);
      assert (s + [c])[1..] == s[1..] + [c];
      ExtendCommutes(Split(s[1..], sep), s[0], c, sep);
    }
  }

  /** Growing the pieces at the front commutes with growing them at the end. */
  lemma ExtendCommutes(rest: seq<string>, b: char, c: char, sep: char)
    requires rest != []
    ensures Extend([""] + rest, c, sep) == [""] + Extend(rest, c, sep)
    ensures var grown := Extend(rest, c, sep);
            Extend([[b] + rest[0]] + rest[1..], c, sep) == [[b] + grown[0]] + grown[1..]
  {
    var grown := Extend(rest, c, sep);
    if c == sep {
      assert grown[0] == rest[0] && grown[1..] == rest[1..] + [""];
    } else if |rest| == 1 {
      assert [b] + (rest[0] + [c]) == ([b] + rest[0]) + [c];
      assert grown == [rest[0] + [c]] && grown[1..] == [];
    } else {
      var n := |rest| - 1;
      assert grown[0] == rest[0] && grown[1..] == rest[1..n] + [rest[n] + [c]];
      assert ([[b] + rest[0]] + rest[1..])[..n] == [[b] + rest[0]] + rest[1..n];
    }
  }
}
