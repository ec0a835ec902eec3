/**
 * PostgreSQL unique-constraint convention: a [Unique] attribute either marks
 * the column unique or, when it names keys, sets the unique key to the
 * comma-separated list of "ux_<table name of key>" entries.
 */
module PgUniqueAttribute {

  import opened Wrappers

  /** The [Unique] attribute as the convention reads it. */
  datatype UniqueAttribute = UniqueAttribute(isKeySet: bool, keyName: string)

  /** What the convention does to the mapping instance. */
  datatype UniqueAction =
    | Unchanged                  // no attribute on the many-to-one member
    | MarkUnique                 // instance.Unique()
    | SetUniqueKey(key: string)  // instance.UniqueKey(key)

  // ---------------------------------------------------------------------------
  // string.Split(char), string.Join(string, ...), string.Trim()
  // ---------------------------------------------------------------------------

  /** string.Split(sep): the pieces between separators, empty pieces included. */
  function SplitOn(s: string, sep: char): (pieces: seq<string>)
    ensures |pieces| >= 1
  {
    if s == [] then [""]
    else
      var rest := SplitOn(s[1..], sep);
      if s[0] == sep then [""] + rest else [[s[0]] + rest[0]] + rest[1..]
  }

  /** string.Join(sep, pieces). */
  function JoinWith(pieces: seq<string>, sep: char): string
  {
    if pieces == [] then ""
    else if |pieces| == 1 then pieces[0]
    else pieces[0] + [sep] + JoinWith(pieces[1..], sep)
  }

  /** How often `c` occurs in `s`. */
  function Occurrences(s: string, c: char): nat
  {
    if s == [] then 0 else (if s[0] == c then 1 else 0) + Occurrences(s[1..], c)
  }

  lemma {:induction false} JoinConsFirst(c: char, pieces: seq<string>, sep: char)
    requires |pieces| >= 1
    ensures JoinWith([[c] + pieces[0]] + pieces[1..], sep) == [c] + JoinWith(pieces, sep)
  {
    if |pieces| > 1 {
      assert ([[c] + pieces[0]] + pieces[1..])[1..] == pieces[1..];
    }
  }

  /**
   * Splitting loses nothing and makes one piece more than there are
   * separators: joining the pieces back gives the input.
   */
  lemma {:induction false} SplitOnJoin(s: string, sep: char)
    ensures JoinWith(SplitOn(s, sep), sep) == s
    ensures |SplitOn(s, sep)| == Occurrences(s, sep) + 1
  {
    if s != [] {
      SplitOnJoin(s[1..], sep);
      var rest := SplitOn(s[1..], sep);
      if s[0] == sep {
        assert ([""] + rest)[1..] == rest;
      } else {
        JoinConsFirst(s[0], rest, sep);
      }
      assert s == [s[0]] + s[1..];
    }
  }

  /** Char.IsWhiteSpace: the Unicode space separators, line and paragraph separators, U+0009..U+000D and U+0085. */
  predicate IsWhiteSpace(c: char)
  {
    c == ' ' || ('\t' <= c <= '\r') || c == '\U{0085}' || c == '\U{00A0}' || c == '\U{1680}' ||
    ('\U{2000}' <= c <= '\U{200A}') || c == '\U{2028}' || c == '\U{2029}' || c == '\U{202F}' ||
    c == '\U{205F}' || c == '\U{3000}'
  }

  function TrimStart(s: string): string
  {
    if s != [] && IsWhiteSpace(s[0]) then TrimStart(s[1..]) else s
  }

  function TrimEnd(s: string): string
  {
    if s != [] && IsWhiteSpace(s[|s| - 1]) then TrimEnd(s[..|s| - 1]) else s
  }

  /** string.Trim(): the input without leading and trailing white space. */
  function Trim(s: string): string
  {
    TrimEnd(TrimStart(s))
  }

  predicate AllWhiteSpace(s: string)
  {
    forall i :: 0 <= i < |s| ==> IsWhiteSpace(s[i])
  }

  /** TrimStart drops a white-space prefix of length k and keeps the rest. */
  lemma {:induction false} TrimStartSplits(s: string) returns (k: nat)
    ensures k <= |s| && AllWhiteSpace(s[..k]) && TrimStart(s) == s[k..]
    ensures TrimStart(s) != [] ==> !IsWhiteSpace(TrimStart(s)[0])
  {
    if s != [] && IsWhiteSpace(s[0]) {
      var j := TrimStartSplits(s[1..]);
      k := j + 1;
      var w := s[..k];
      assert AllWhiteSpace(w) by {
        forall i | 0 <= i < |w| ensures IsWhiteSpace(w[i]) {
          if i > 0 { assert w[i] == s[1..][..j][i - 1]; }
        }
      }
      assert s[1..][j..] == s[k..];
    } else {
      k := 0;
      assert AllWhiteSpace(s[..0]);
    }
  }

  /** TrimEnd keeps a prefix of length k and drops the white-space rest. */
  lemma {:induction false} TrimEndSplits(s: string) returns (k: nat)
    ensures k <= |s| && AllWhiteSpace(s[k..]) && TrimEnd(s) == s[..k]
    ensures TrimEnd(s) != [] ==> !IsWhiteSpace(TrimEnd(s)[|TrimEnd(s)| - 1])
    decreases |s|
  {
    if s != [] && IsWhiteSpace(s[|s| - 1]) {
      var t := s[..|s| - 1];
      k := TrimEndSplits(t);
      var w := s[k..];
      assert AllWhiteSpace(w) by {
        forall i | 0 <= i < |w| ensures IsWhiteSpace(w[i]) {
          if i < |t| - k { assert w[i] == t[k..][i]; }
        }
      }
      assert t[..k] == s[..k];
    } else {
      k := |s|;
      assert AllWhiteSpace(s[|s|..]);
    }
  }

  lemma {:induction false} SliceOfSlice(s: string, i: nat, k: nat)
    requires i + k <= |s|
    ensures s[i..][..k] == s[i..i + k]
    ensures s[i..][k..] == s[i + k..]
  {
  }

  /**
   * Trim keeps a contiguous middle part of its input: what it drops on either
   * side is white space, and the part it keeps neither starts nor ends with
   * white space.
   */
  lemma {:induction false} TrimKeepsMiddle(s: string)
    ensures exists i, j ::
      && 0 <= i <= j <= |s|
      && Trim(s) == s[i..j]
      && AllWhiteSpace(s[..i])
      && AllWhiteSpace(s[j..])
    ensures Trim(s) != [] ==> !IsWhiteSpace(Trim(s)[0]) && !IsWhiteSpace(Trim(s)[|Trim(s)| - 1])
  {
    var i := TrimStartSplits(s);
    var u := s[i..];
    var k := TrimEndSplits(u);
    SliceOfSlice(s, i, k);
    assert Trim(s) == s[i..i + k] && AllWhiteSpace(s[..i]) && AllWhiteSpace(s[i + k..]);
    if Trim(s) != [] {
      assert Trim(s)[0] == TrimStart(s)[0];
    }
  }

  // ---------------------------------------------------------------------------
  // The convention
  // ---------------------------------------------------------------------------

  /** One "ux_" entry per comma-separated piece of the key name, in order. */
  function UniqueKeys(tableName: string -> string, keyName: string): seq<string>
  {
    var pieces := SplitOn(keyName, ',');
    seq(|pieces|, i requires 0 <= i < |pieces| => "ux_" + tableName(Trim(pieces[i])))
  }

  /** The unique key handed to UniqueKey: the entries joined with ",". */
  function UniqueKey(tableName: string -> string, keyName: string): string
  {
    JoinWith(UniqueKeys(tableName, keyName), ',')
  }

  /**
   * There are as many "ux_" entries as comma-separated pieces of the key name,
   * empty pieces included, and entry i names the trimmed piece i.
   */
  lemma {:induction false} UniqueKeysPerPiece(tableName: string -> string, keyName: string)
    ensures |UniqueKeys(tableName, keyName)| == Occurrences(keyName, ',') + 1
    ensures forall i :: 0 <= i < |UniqueKeys(tableName, keyName)| ==>
      UniqueKeys(tableName, keyName)[i][..3] == "ux_" &&
      UniqueKeys(tableName, keyName)[i][3..] == tableName(Trim(SplitOn(keyName, ',')[i]))
  {
    SplitOnJoin(keyName, ',');
  }

  /** Apply on a property carrying the attribute. */
  function ApplyToProperty(tableName: string -> string, attribute: UniqueAttribute): (r: UniqueAction)
    ensures r.SetUniqueKey? <==> attribute.isKeySet
    ensures r.MarkUnique? <==> !attribute.isKeySet
    ensures r.SetUniqueKey? ==> r.key == UniqueKey(tableName, attribute.keyName)
  {
    if attribute.isKeySet then SetUniqueKey(UniqueKey(tableName, attribute.keyName)) else MarkUnique
  }

  /**
   * Apply on a many-to-one member: nothing without the attribute, otherwise
   * exactly what the property path does with the same attribute.
   */
  function ApplyToManyToOne(tableName: string -> string, attribute: Option<UniqueAttribute>): (r: UniqueAction)
    ensures attribute.None? <==> r.Unchanged?
    ensures attribute.Some? ==> r == ApplyToProperty(tableName, attribute.value)
  {
    match attribute
    case None => Unchanged
    case Some(a) =>
      if a.isKeySet then SetUniqueKey(JoinWith(UniqueKeys(tableName, a.keyName), ',')) else MarkUnique
  }
}
