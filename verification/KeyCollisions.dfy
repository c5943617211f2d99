// When two requests share a cache key (backend/internal/server/readings_cache.go). The parts of a key
// are set apart by NULs, so another request has the same key exactly when the key can be cut at
// another NUL and leave a list of field names behind it.

module KeyCollisions {
  import opened CacheKeys
  import opened FieldLists
  import opened Queries
  import opened Text

  /** A text some list of field names joins to. */
  predicate JoinsNames(s: string) {
    s == "" || FieldNames(Split(s, ','))
  }

  /** Cutting a text at one of its NULs leaves a list of field names behind it. */
  predicate CutsBefore(s: string, k: nat) {
    k < |s| && s[k] == NUL && JoinsNames(s[k + 1..])
  }

  ghost predicate HasCut(s: string) {
    exists k: nat :: CutsBefore(s, k)
  }

  ghost predicate HasCutBesides(s: string, n: nat) {
    exists k: nat :: k != n && CutsBefore(s, k)
  }

  predicate NulInside(name: string, isLast: bool) {
    exists j :: 0 <= j < |name| && name[j] == NUL && (isLast || j + 1 < |name|)
  }

  /** Some name holds a NUL, other than as its last character with another name behind it. */
  predicate NameWithNul(names: seq<string>) {
    exists i :: 0 <= i < |names| && NulInside(names[i], i + 1 == |names|)
  }

  predicate EarlierNonEmpty(parts: seq<string>) {
    forall i :: 0 <= i < |parts| - 1 ==> parts[i] != ""
  }

  /** The device holds a NUL behind which no comma comes first or next to another comma. */
  predicate DeviceWithNul(device: string) {
    exists k :: 0 <= k < |device| && device[k] == NUL && EarlierNonEmpty(Split(device[k + 1..], ','))
  }

  /** What is wrong with a request whose key some other request shares. */
  predicate Ambiguous(q: Request) {
    DeviceWithNul(q.device) || NameWithNul(q.fields)
  }

  lemma JoinOfNames(names: seq<string>)
    requires FieldNames(names)
    ensures JoinsNames(Join(names, ','))
  {
    if names != [] {
      SplitJoin(names, ',');
    }
  }

  /** The last piece in front and the first behind run together. */
  function Glue(front: seq<string>, back: seq<string>): seq<string>
    requires front != [] && back != []
  {
    front[..|front| - 1] + [front[|front| - 1] + back[0]] + back[1..]
  }

  /** Gluing commutes with one more character at the front. */
  lemma GlueGrows(front: seq<string>, back: seq<string>, c: char)
    requires front != [] && back != []
    ensures Glue([""] + front, back) == [""] + Glue(front, back)
    ensures var glued := Glue(front, back);
            Glue([[c] + front[0]] + front[1..], back) == [[c] + glued[0]] + glued[1..]
  {
    var m := |front| - 1;
    if m == 0 {
      assert [c] + (front[0] + back[0]) == ([c] + front[0]) + back[0];
    } else {
      assert ([[c] + front[0]] + front[1..])[..m] == [[c] + front[0]] + front[1..m];
      assert Glue(front, back)[1..] == front[1..m] + [front[m] + back[0]] + back[1..];
    }
  }

  lemma {:induction false} SplitConcat(a: string, b: string, sep: char)
    ensures Split(a + b, sep) == Glue(Split(a, sep), Split(b, sep))
  {
    if a == "" {
      assert a + b == b;
      assert "" + Split(b, sep)[0] == Split(b, sep)[0];
    } else {
      SplitConcat(a[1..], b, sep);
      assert (a + b)[1..] == a[1..] + b && (a + b)[0] == a[0];
      GlueGrows(Split(a[1..], sep), Split(b, sep), a[0]);
    }
  }

  /** All pieces glued to a list that starts with a NUL are names exactly when only the last piece
      in front may be empty. */
  lemma GluedNames(front: seq<string>, back: seq<string>)
    requires front != [] && back != [] && AllFree(front, ',') && AllFree(back, ',')
    requires back[0] != "" && forall i :: 0 < i < |back| ==> back[i] != ""
    ensures FieldNames(Glue(front, back)) <==> EarlierNonEmpty(front)
  {
    var m := |front| - 1;
    var glued := Glue(front, back);
    assert forall i :: 0 <= i < m ==> glued[i] == front[i];
    assert glued[m] == front[m] + back[0];
    forall i | m < i < |glued|
      ensures glued[i] == back[i - m]
    {
    }
  }

  /** Where a NUL before the field list can be the cut. */
  lemma CutInFront(front: string, joined: string, k: nat)
    requires JoinsNames(joined) && k < |front|
    ensures CutsBefore(front + [NUL] + joined, k) <==> front[k] == NUL && EarlierNonEmpty(Split(front[k + 1..], ','))
  {
    var behind, tail := front[k + 1..], [NUL] + joined;
    assert (front + [NUL] + joined)[k + 1..] == behind + tail;
    assert tail[1..] == joined;
    SplitConcat(behind, tail, ',');
    SplitIsFree(behind, ',');
    SplitIsFree(tail, ',');
    var parts := Split(joined, ',');
    assert Split(tail, ',') == [[NUL] + parts[0]] + parts[1..];
    GluedNames(Split(behind, ','), Split(tail, ','));
  }

  lemma CutBehind(front: string, c: char, joined: string, k: nat)
    ensures CutsBefore(front + [c] + joined, |front| + 1 + k) <==> CutsBefore(joined, k)
  {
    if k < |joined| {
      assert (front + [c] + joined)[|front| + 1 + k + 1..] == joined[k + 1..];
    }
  }

  lemma CutInOneName(name: string)
    requires ',' !in name
    ensures HasCut(name) <==> NulInside(name, true)
  {
    forall k: nat | k < |name| && name[k] == NUL
      ensures JoinsNames(name[k + 1..])
    {
      SplitFree(name[k + 1..], ',');
    }
    if NulInside(name, true) {
      var j :| 0 <= j < |name| && name[j] == NUL;
      assert CutsBefore(name, j);
    }
  }

  /** A NUL in the first of several names is a cut unless it is the last character. */
  lemma CutInHead(head: string, rest: string, k: nat)
    requires ',' !in head && FieldNames(Split(rest, ',')) && k < |head|
    ensures CutsBefore(head + [','] + rest, k) <==> head[k] == NUL && k + 1 < |head|
  {
    assert (head + [','] + rest)[k + 1..] == head[k + 1..] + [','] + rest;
    SplitAtSeparator(head[k + 1..], rest, ',');
    var parts := Split(head[k + 1..] + [','] + rest, ',');
    assert parts[0] == head[k + 1..] && parts[1..] == Split(rest, ',');
    assert forall i :: 0 < i < |parts| ==> parts[i] == parts[1..][i - 1];
  }

  /** A cut lies in the first name or in the others. */
  lemma CutInSeveralNames(head: string, rest: string)
    requires ',' !in head && FieldNames(Split(rest, ','))
    ensures HasCut(head + [','] + rest) <==> NulInside(head, false) || HasCut(rest)
  {
    var all := head + [','] + rest;
    if k: nat :| CutsBefore(all, k) {
      if k < |head| {
        CutInHead(head, rest, k);
      } else {
        CutBehind(head, ',', rest, k - |head| - 1);
      }
    }
    if NulInside(head, false) {
      var j :| 0 <= j < |head| && head[j] == NUL && j + 1 < |head|;
      CutInHead(head, rest, j);
    }
    if k: nat :| CutsBefore(rest, k) {
      CutBehind(head, ',', rest, k);
    }
  }

  lemma NameWithNulStep(names: seq<string>)
    requires |names| > 1
    ensures NameWithNul(names) <==> NulInside(names[0], false) || NameWithNul(names[1..])
  {
    var rest := names[1..];
    if i :| 0 < i < |names| && NulInside(names[i], i + 1 == |names|) {
      assert NulInside(rest[i - 1], i == |rest|);
    }
    if i :| 0 <= i < |rest| && NulInside(rest[i], i + 1 == |rest|) {
      assert NulInside(names[i + 1], i + 2 == |names|);
    }
  }

  /** Where a NUL inside the field list can be the cut. */
  lemma {:induction false} CutInNames(names: seq<string>)
    requires FieldNames(names)
    ensures HasCut(Join(names, ',')) <==> NameWithNul(names)
  {
    if |names| == 1 {
      CutInOneName(names[0]);
      assert NulInside(names[0], 0 + 1 == |names|) == NulInside(names[0], true);
    } else if |names| > 1 {
      CutInNames(names[1..]);
      SplitJoin(names[1..], ',');
      CutInSeveralNames(names[0], Join(names[1..], ','));
      NameWithNulStep(names);
    }
  }

  lemma NamesJoined(s: string) returns (names: seq<string>)
    requires JoinsNames(s)
    ensures FieldNames(names) && Join(names, ',') == s
  {
    if s == "" {
      names := [];
    } else {
      names := Split(s, ',');
      JoinSplit(s, ',');
    }
  }

  /** A cut other than the request's own makes another request with the same key. */
  lemma CutGivesRequest(p: Request, k: nat) returns (q: Request)
    requires k != |p.device| && CutsBefore(Subject(p), k)
    ensures FieldNames(q.fields) && Subject(q) == Subject(p) && q.device != p.device
    ensures q.from == p.from && q.to == p.to
  {
    var s := Subject(p);
    var names := NamesJoined(s[k + 1..]);
    q := Request(s[..k], names, p.from, p.to);
    assert s == s[..k] + [NUL] + s[k + 1..];
    assert |q.device| == k;
  }

  /** Another request with the same key is another cut. */
  lemma RequestGivesCut(p: Request, q: Request)
    requires FieldNames(p.fields) && FieldNames(q.fields) && Subject(p) == Subject(q)
    ensures CutsBefore(Subject(p), |q.device|)
    ensures |q.device| == |p.device| ==> q.device == p.device && q.fields == p.fields
  {
    assert Subject(q)[|q.device| + 1..] == Join(q.fields, ',');
    JoinOfNames(q.fields);
    if |q.device| == |p.device| {
      assert Subject(p)[..|p.device|] == p.device && Subject(q)[..|q.device|] == q.device;
      assert Subject(p)[|p.device| + 1..] == Join(p.fields, ',');
      FieldListOfJoin(p.fields);
      FieldListOfJoin(q.fields);
    }
  }

  /** Cuts elsewhere than right behind the device. */
  lemma OtherCuts(device: string, joined: string)
    requires JoinsNames(joined)
    ensures HasCutBesides(device + [NUL] + joined, |device|) <==> DeviceWithNul(device) || HasCut(joined)
  {
    var all := device + [NUL] + joined;
    if k: nat :| k != |device| && CutsBefore(all, k) {
      if k < |device| {
        CutInFront(device, joined, k);
      } else {
        CutBehind(device, NUL, joined, k - |device| - 1);
      }
    }
    if DeviceWithNul(device) {
      var k :| 0 <= k < |device| && device[k] == NUL && EarlierNonEmpty(Split(device[k + 1..], ','));
      CutInFront(device, joined, k);
    }
    if k: nat :| CutsBefore(joined, k) {
      CutBehind(device, NUL, joined, k);
      assert CutsBefore(all, |device| + 1 + k);
    }
  }

  ghost predicate Confused(format: MinuteFormat, p: Request, q: Request) {
    FieldNames(q.fields) && CacheKey(format, p) == CacheKey(format, q) && !SameUpToMinutes(p, q)
  }

  /** Exactly when some other request shares the key of this one. */
  lemma KeySharedExactlyWhenAmbiguous(format: MinuteFormat, p: Request)
    requires Faithful(format) && FieldNames(p.fields)
    ensures (exists q :: Confused(format, p, q)) <==> Ambiguous(p)
  {
    JoinOfNames(p.fields);
    OtherCuts(p.device, Join(p.fields, ','));
    CutInNames(p.fields);
    if Ambiguous(p) {
      assert HasCutBesides(Subject(p), |p.device|);
      var k: nat :| k != |p.device| && CutsBefore(Subject(p), k);
      var q := CutGivesRequest(p, k);
      assert Confused(format, p, q);
    }
    if q :| Confused(format, p, q) {
      SameKeySameSubject(format, p, q);
      RequestGivesCut(p, q);
      assert |q.device| != |p.device|;
    }
  }

  /** So one clean request is enough: its key tells it from every other request, clean or not. */
  lemma CleanKeyDeterminesRequest(format: MinuteFormat, p: Request, q: Request)
    requires Faithful(format) && FieldNames(p.fields) && FieldNames(q.fields) && Clean(p)
    ensures CacheKey(format, p) == CacheKey(format, q) <==> SameUpToMinutes(p, q)
  {
    KeySharedExactlyWhenAmbiguous(format, p);
    assert !Confused(format, p, q);
  }
}
