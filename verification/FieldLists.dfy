// Field-list parsing in backend/internal/handlers/readings.go.

module FieldLists {
  import opened Sequences
  import opened Text

  /** The pieces of `s` for a separator of any length. Only a one-byte separator ever matches. */
  function Pieces(s: string, sep: string): (parts: seq<string>)
    ensures parts != []
  {
    if |sep| == 1 then Split(s, sep[0]) else [s]
  }

  method SplitString(s: string, sep: string) returns (result: seq<string>)
    ensures result == if |sep| == 1 then Split(s, sep[0]) else [s]
  {
    result := [];
    var start := 0;
    for i := 0 to |s|
      invariant 0 <= start <= i
      invariant result + [s[start..i]] == Pieces(s[..i], sep)
    {
      assert s[..i + 1] == s[..i] + [s[i]];
      if |sep| == 1 {
        SplitSnoc(s[..i], s[i], sep[0]);
      }
      assert s[i..i + 1] == [s[i]];
      if s[i..i + 1] == sep {
        result := result + [s[start..i]];
        start := i + 1;
        assert s[start..i + 1] == "";
      } else {
        assert s[start..i + 1] == s[start..i] + [s[i]];
        var parts := Pieces(s[..i], sep);
        assert parts[..|parts| - 1] == result && parts[|parts| - 1] == s[start..i];
      }
    }
    assert s[..|s|] == s;
    assert s[start..|s|] == s[start..];
    result := result + [s[start..]];
  }

  predicate NonEmpty(name: string) {
    name != ""
  }

  /** The field names in a comma-separated list. */
  function FieldList(s: string): seq<string> {
    Filter(NonEmpty, Split(s, ','))
  }

  method SplitFields(s: string) returns (fields: seq<string>)
    ensures fields == FieldList(s)
  {
    fields := [];
    var pieces := SplitString(s, ",");
    for i := 0 to |pieces|
      invariant fields == Filter(NonEmpty, pieces[..i])
    {
      assert pieces[..i + 1] == pieces[..i] + [pieces[i]];
      FilterSnoc(NonEmpty, pieces[..i], pieces[i]);
      if pieces[i] != "" {
        fields := fields + [pieces[i]];
      }
    }
    assert pieces[..|pieces|] == pieces;
  }

  /** Names a field list can be built from. */
  predicate FieldNames(names: seq<string>) {
    forall i :: 0 <= i < |names| ==> names[i] != "" && ',' !in names[i]
  }

  /** Splitting and joining are inverse: the pieces are separator-free and join to the input, and no
      other separator-free pieces do. */
  lemma PiecesJoinBack(s: string, sep: char)
    ensures Join(Pieces(s, [sep]), sep) == s && AllFree(Pieces(s, [sep]), sep)
    ensures forall parts :: parts != [] && AllFree(parts, sep) && Join(parts, sep) == s ==> parts == Pieces(s, [sep])
  {
    JoinSplit(s, sep);
    SplitIsFree(s, sep);
    forall parts | parts != [] && AllFree(parts, sep) && Join(parts, sep) == s
      ensures parts == Pieces(s, [sep])
    {
      SplitJoin(parts, sep);
    }
  }

  lemma {:induction false} FilterNonEmptyKeeps(names: seq<string>)
    requires FieldNames(names)
    ensures Filter(NonEmpty, names) == names
  {
    if names == [] {
    } else {
      FilterNonEmptyKeeps(names[1..]);
    }
  }

  /** Splitting the comma-join of field names gives exactly those names. */
  lemma FieldListOfJoin(names: seq<string>)
    requires FieldNames(names)
    ensures FieldList(Join(names, ',')) == names
  {
    if names == [] {
      assert Split("", ',') == [""];
    } else {
      SplitJoin(names, ',');
      FilterNonEmptyKeeps(names);
    }
  }

  /** Everything a field list yields is a field name, so that it survives another join and split. */
  lemma FieldListIsFieldNames(s: string)
    ensures FieldNames(FieldList(s))
    ensures FieldList(Join(FieldList(s), ',')) == FieldList(s)
  {
    SplitIsFree(s, ',');
    var fields := FieldList(s);
    FilterMembers(NonEmpty, Split(s, ','));
    forall i | 0 <= i < |fields|
      ensures fields[i] != "" && ',' !in fields[i]
    {
      assert fields[i] in fields;
    }
    FieldListOfJoin(fields);
  }

  /** A comma separates two lists; without one there is one name, or none in the empty text. */
  lemma FieldListOfTwo(a: string, b: string)
    ensures FieldList(a + "," + b) == FieldList(a) + FieldList(b)
    ensures ',' !in a ==> FieldList(a) == if a == "" then [] else [a]
  {
    SplitAtComma(a, b);
    FilterConcat(NonEmpty, Split(a, ','), Split(b, ','));
    if ',' !in a {
      SplitFree(a, ',');
    }
  }

  lemma {:induction false} SplitAtComma(a: string, b: string)
    ensures Split(a + "," + b, ',') == Split(a, ',') + Split(b, ',')
  {
    var s := a + "," + b;
    if a == "" {
      assert s[1..] == b;
    } else {
      SplitAtComma(a[1..], b);
      assert s[0] == a[0] && s[1..] == a[1..] + "," + b;
      FrontGrows(Split(a[1..], ','), Split(b, ','), a[0]);
    }
  }

  /** Growing the front of a concatenation. */
  lemma FrontGrows(front: seq<string>, back: seq<string>, c: char)
    requires front != []
    ensures [""] + (front + back) == ([""] + front) + back
    ensures [[c] + (front + back)[0]] + (front + back)[1..] == ([[c] + front[0]] + front[1..]) + back
  {
  }

  /** A list has a name in it exactly when the text is more than commas. */
  lemma {:induction false} SomeName(s: string)
    ensures FieldList(s) != [] <==> exists i :: 0 <= i < |s| && s[i] != ','
  {
    var pieces := Split(s, ',');
    JoinSplit(s, ',');
    SplitIsFree(s, ',');
    FilterMembers(NonEmpty, pieces);
    if FieldList(s) != [] {
      var name := FieldList(s)[0];
      assert name in FieldList(s);
      var i :| 0 <= i < |pieces| && pieces[i] == name;
      PieceInText(s, i, 0);
    }
    if i :| 0 <= i < |s| && s[i] != ',' {
      CharInPiece(s, i);
      var j :| 0 <= j < |pieces| && pieces[j] != "";
      assert pieces[j] in FieldList(s);
    }
  }

  lemma {:induction false} PieceInText(s: string, i: nat, k: nat)
    requires i < |Split(s, ',')| && k < |Split(s, ',')[i]|
    ensures Split(s, ',')[i][k] in s
  {
    var rest := Split(s[1..], ',');
    if s[0] == ',' {
      PieceInText(s[1..], i - 1, k);
    } else if i > 0 {
      PieceInText(s[1..], i, k);
    } else if k > 0 {
      PieceInText(s[1..], 0, k - 1);
    }
  }

  lemma {:induction false} CharInPiece(s: string, i: nat)
    requires i < |s| && s[i] != ','
    ensures exists j :: 0 <= j < |Split(s, ',')| && Split(s, ',')[j] != ""
  {
    var rest := Split(s[1..], ',');
    if i == 0 {
      assert Split(s, ',')[0] == [s[0]] + rest[0];
    } else {
      CharInPiece(s[1..], i - 1);
      var j :| 0 <= j < |rest| && rest[j] != "";
      if s[0] == ',' {
        assert Split(s, ',')[j + 1] == rest[j];
      } else if j == 0 {
        assert Split(s, ',')[0] == [s[0]] + rest[0];
      } else {
        assert Split(s, ',')[j] == rest[j];
      }
    }
  }
}
