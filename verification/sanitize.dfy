/**
 The per-owner database file name: `username.replace(/[^a-zA-Z0-9]/g, "_")`.
 A name is a sequence of characters; JavaScript sees UTF-16 code units instead, which
 differs only for characters outside the Basic Multilingual Plane.
 */
module Sanitize {

  /** A character the pattern `[a-zA-Z0-9]` matches. */
  predicate IsAlphanumeric(c: char) {
    'a' <= c <= 'z' || 'A' <= c <= 'Z' || '0' <= c <= '9'
  }

  /** A character allowed in a sanitised name. */
  predicate IsSafe(c: char) {
    IsAlphanumeric(c) || c == '_'
  }

  /** Replaces every character outside `[a-zA-Z0-9]` by `_`. */
  function SanitizeName(username: string): (r: string)
    ensures |r| == |username|
    ensures forall i | 0 <= i < |r| :: IsSafe(r[i])
    ensures forall i | 0 <= i < |r| :: IsAlphanumeric(username[i]) ==> r[i] == username[i]
    ensures forall i | 0 <= i < |r| :: !IsAlphanumeric(username[i]) ==> r[i] == '_'
  {
    if username == [] then []
    else
      var rest := SanitizeName(username[1..]);
      [if IsAlphanumeric(username[0]) then username[0] else '_'] + rest
  }

  /** A name is left as it is exactly when it already uses only `[A-Za-z0-9_]`. */
  lemma SanitizedIsFixedPoint(username: string)
    ensures SanitizeName(username) == username <==> forall i | 0 <= i < |username| :: IsSafe(username[i])
  {
    var r := SanitizeName(username);
    if forall i | 0 <= i < |username| :: IsSafe(username[i]) {
      assert forall i | 0 <= i < |username| :: r[i] == username[i];
    }
  }

  /** Sanitising twice is sanitising once. */
  lemma SanitizeIdempotent(username: string)
    ensures SanitizeName(SanitizeName(username)) == SanitizeName(username)
  {
    SanitizedIsFixedPoint(SanitizeName(username));
  }

  /**
   Two usernames share a database file exactly when they have the same length, the same
   alphanumeric characters at the same places, and non-alphanumeric characters elsewhere.
   */
  lemma SameFileIff(a: string, b: string)
    ensures SanitizeName(a) == SanitizeName(b) <==> SameShape(a, b)
  {
    if SanitizeName(a) == SanitizeName(b) {
      SameFileHasSameShape(a, b);
    }
    if SameShape(a, b) {
      SameShapeSharesFile(a, b);
    }
  }

  /** Same length, same alphanumeric characters in the same places, non-alphanumerics elsewhere. */
  predicate SameShape(a: string, b: string) {
    |a| == |b| &&
    forall i | 0 <= i < |a| :: (IsAlphanumeric(a[i]) || IsAlphanumeric(b[i])) ==> a[i] == b[i]
  }

  lemma SameFileHasSameShape(a: string, b: string)
    requires SanitizeName(a) == SanitizeName(b)
    ensures SameShape(a, b)
  {
    var ra, rb := SanitizeName(a), SanitizeName(b);
    forall i | 0 <= i < |a| && (IsAlphanumeric(a[i]) || IsAlphanumeric(b[i]))
      ensures a[i] == b[i]
    {
      assert ra[i] == rb[i];
    }
  }

  lemma SameShapeSharesFile(a: string, b: string)
    requires SameShape(a, b)
    ensures SanitizeName(a) == SanitizeName(b)
  {
    var ra, rb := SanitizeName(a), SanitizeName(b);
    assert forall i | 0 <= i < |a| :: ra[i] == rb[i];
  }

  /** A dot and an underscore in the same place lead to the same file. */
  lemma SeparatorsCollide(p: string, q: string)
    ensures SanitizeName(p + "." + q) == SanitizeName(p + "_" + q)
  {
    var a, b := p + "." + q, p + "_" + q;
    forall i | 0 <= i < |a| && (IsAlphanumeric(a[i]) || IsAlphanumeric(b[i]))
      ensures a[i] == b[i]
    {
      if i < |p| {
        assert a[i] == p[i] == b[i];
      } else if i > |p| {
        assert a[i] == q[i - |p| - 1] == b[i];
      }
    }
    SameShapeSharesFile(a, b);
  }

  /**
   The sanitiser is not injective: "matt.tang" and "matt_tang" share one database file.
   Both end up in `matt_tang.db`.
   */
  lemma MattTangCollision(dotted: string, underscored: string)
    requires dotted == "matt.tang" && underscored == "matt_tang"
    ensures dotted != underscored
    ensures SanitizeName(dotted) == SanitizeName(underscored) == underscored
  {
    assert dotted[4] != underscored[4];
    SameShapeSharesFile(dotted, underscored);
    UnderscoredNameIsKept(underscored);
  }

  /** "matt_tang" is already safe, so it names its own file. */
  lemma UnderscoredNameIsKept(name: string)
    requires name == "matt_tang"
    ensures SanitizeName(name) == name
  {
    assert forall i | 0 <= i < |name| :: IsSafe(name[i]);
    SanitizedIsFixedPoint(name);
  }
}
