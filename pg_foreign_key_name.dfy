/**
 * PostgreSQL foreign-key naming convention: the constraint name is built as
 * "fk__<entity table>__<other table>__<member table>" and then shortened until
 * it fits PostgreSQL's default identifier limit of 63 characters.
 */
module PgForeignKeyName {

  import opened Wrappers

  /** PostgreSQL's default identifier length limit (NAMEDATALEN - 1), counted in characters. */
  const MaxIdentifierLength := 63
  /** The piece length used in the first shortening round. */
  const InitialPieceLength := 18
  /** Once the piece length drops below this value the convention gives up. */
  const MinPieceLength := 10

  // ---------------------------------------------------------------------------
  // Splitting on "__" (Regex.Split with the pattern "__")
  // ---------------------------------------------------------------------------

  /** The pieces between the leftmost non-overlapping occurrences of "__". */
  function Split(s: string): (parts: seq<string>)
    ensures |parts| >= 1
    decreases |s|
  {
    if |s| < 2 then [s]
    else if s[0] == '_' && s[1] == '_' then [""] + Split(s[2..])
    else
      var rest := Split(s[1..]);
      [[s[0]] + rest[0]] + rest[1..]
  }

  /** The inverse of Split: the pieces glued back together with "__". */
  function Join(parts: seq<string>): string
    requires |parts| >= 1
  {
    if |parts| == 1 then parts[0] else parts[0] + "__" + Join(parts[1..])
  }

  lemma {:induction false} JoinConsFirst(c: char, parts: seq<string>)
    requires |parts| >= 1
    ensures Join([[c] + parts[0]] + parts[1..]) == [c] + Join(parts)
  {
    if |parts| > 1 {
      assert ([[c] + parts[0]] + parts[1..])[1..] == parts[1..];
    }
  }

  /** Splitting on "__" loses nothing: joining the pieces gives the input back. */
  lemma {:induction false} JoinSplit(s: string)
    ensures Join(Split(s)) == s
    decreases |s|
  {
    if |s| < 2 {
    } else if s[0] == '_' && s[1] == '_' {
      JoinSplit(s[2..]);
      assert ([""] + Split(s[2..]))[1..] == Split(s[2..]);
      assert s == "__" + s[2..];
    } else {
      JoinSplit(s[1..]);
      JoinConsFirst(s[0], Split(s[1..]));
      assert s == [s[0]] + s[1..];
    }
  }

  /** A piece that Split gives back unchanged when it is followed by "__". */
  predicate Plain(p: string)
  {
    (forall i :: 0 <= i < |p| - 1 ==> !(p[i] == '_' && p[i + 1] == '_')) &&
    (|p| > 0 ==> p[|p| - 1] != '_')
  }

  lemma {:induction false} PlainTail(p: string)
    requires Plain(p) && |p| > 0
    ensures Plain(p[1..])
  {
    var q := p[1..];
    forall i | 0 <= i < |q| - 1 ensures !(q[i] == '_' && q[i + 1] == '_') {
      assert q[i] == p[i + 1] && q[i + 1] == p[i + 2];
    }
  }

  /** A string that does not start with "__" gives its first character to its first piece. */
  lemma {:induction false} SplitFirstChar(s: string)
    requires |s| >= 2 && !(s[0] == '_' && s[1] == '_')
    ensures Split(s) == [[s[0]] + Split(s[1..])[0]] + Split(s[1..])[1..]
  {
  }

  lemma {:induction false} SplitPlainPrefix(p: string, t: string)
    requires Plain(p) && |t| >= 2 && t[0] == '_' && t[1] == '_'
    ensures Split(p + t) == [p] + Split(t[2..])
    decreases |p|
  {
    if |p| == 0 {
      assert p + t == t;
    } else {
      var q := p[1..];
      PlainTail(p);
      SplitPlainPrefix(q, t);
      var s := p + t;
      assert s[1..] == q + t;
      assert s[0] == p[0];
      assert s[1] == if |p| == 1 then t[0] else p[1];
      SplitFirstChar(s);
      assert [p[0]] + q == p;
    }
  }

  /** A piece without "__" comes back from Split whole. */
  lemma {:induction false} SplitPlain(p: string)
    requires Plain(p)
    ensures Split(p) == [p]
    decreases |p|
  {
    if |p| >= 2 {
      var q := p[1..];
      PlainTail(p);
      SplitPlain(q);
      assert [p[0]] + q == p;
    }
  }

  // ---------------------------------------------------------------------------
  // Shortening
  // ---------------------------------------------------------------------------

  /** One piece cut to its first `len` characters when it is longer. */
  function Truncate(piece: string, len: nat): string
  {
    if |piece| > len then piece[..len] else piece
  }

  /** string.Join("", pieces): the concatenation without separator. */
  function Concat(pieces: seq<string>): string
  {
    if pieces == [] then "" else pieces[0] + Concat(pieces[1..])
  }

  /** The candidate name of one shortening round: every piece cut to `len`, glued without separator. */
  function Shortened(parts: seq<string>, len: nat): string
  {
    if parts == [] then "" else Truncate(parts[0], len) + Shortened(parts[1..], len)
  }

  /** The outcome of the shortening rounds that start with piece length `len`. */
  function RoundsFrom(name: string, parts: seq<string>, len: int): Result<string>
    decreases len
  {
    if len <= MinPieceLength then Failure("FK name too long: " + name)
    else
      var candidate := Shortened(parts, len);
      if |candidate| <= MaxIdentifierLength then Success(candidate)
      else RoundsFrom(name, parts, len - 1)
  }

  /** What GetFkName returns or throws for the given full name. */
  function FkName(name: string): Result<string>
  {
    if |name| <= MaxIdentifierLength then Success(name)
    else RoundsFrom(name, Split(name), InitialPieceLength)
  }

  /**
   * GetFkName: keep shortening while the name is longer than 63 characters,
   * each round with pieces one character shorter, and throw once the next
   * piece length would be below 10.
   */
  method GetFkName(name: string) returns (r: Result<string>)
    ensures r == FkName(name)
  {
    var split := Split(name);
    var shorten := name;
    var length := InitialPieceLength;
    while |shorten| > MaxIdentifierLength
      invariant MinPieceLength <= length <= InitialPieceLength
      invariant FkName(name) ==
        if |shorten| <= MaxIdentifierLength then Success(shorten) else RoundsFrom(name, split, length)
      decreases length
    {
      shorten := Shortened(split, length);
      length := length - 1;
      if length < MinPieceLength {
        return Failure("FK name too long: " + name);
      }
    }
    return Success(shorten);
  }

  // ---------------------------------------------------------------------------
  // Properties of the shortening
  // ---------------------------------------------------------------------------

  lemma {:induction false} RoundsFromFit(name: string, parts: seq<string>, len: int)
    ensures RoundsFrom(name, parts, len).Success? ==>
      |RoundsFrom(name, parts, len).value| <= MaxIdentifierLength
    decreases len
  {
    if len > MinPieceLength && |Shortened(parts, len)| > MaxIdentifierLength {
      RoundsFromFit(name, parts, len - 1);
    }
  }

  /** Whenever GetFkName returns, the name fits in 63 characters. */
  lemma {:induction false} FkNameFits(name: string)
    ensures FkName(name).Success? ==> |FkName(name).value| <= MaxIdentifierLength
  {
    if |name| > MaxIdentifierLength {
      RoundsFromFit(name, Split(name), InitialPieceLength);
    }
  }

  /** A name that already fits is returned as it is, "__" separators included. */
  lemma {:induction false} FkNameKeepsShortName(name: string)
    requires |name| <= MaxIdentifierLength
    ensures FkName(name) == Success(name)
    ensures Join(Split(FkName(name).value)) == name
  {
    JoinSplit(name);
  }

  /** Shorter pieces never give a longer candidate. */
  lemma {:induction false} ShortenedMonotone(parts: seq<string>, shorter: nat, longer: nat)
    requires shorter <= longer
    ensures |Shortened(parts, shorter)| <= |Shortened(parts, longer)|
    decreases |parts|
  {
    if parts != [] {
      ShortenedMonotone(parts[1..], shorter, longer);
    }
  }

  lemma {:induction false} RoundsFromSucceeds(name: string, parts: seq<string>, len: int)
    requires len <= InitialPieceLength
    ensures RoundsFrom(name, parts, len).Success? <==>
      len > MinPieceLength && |Shortened(parts, MinPieceLength + 1)| <= MaxIdentifierLength
    decreases len
  {
    if len > MinPieceLength {
      ShortenedMonotone(parts, MinPieceLength + 1, len);
      if |Shortened(parts, len)| > MaxIdentifierLength {
        RoundsFromSucceeds(name, parts, len - 1);
      }
    }
  }

  /** `l` is the longest piece length up to `len` whose candidate fits, and RoundsFrom returns that candidate. */
  predicate ChosenLength(name: string, parts: seq<string>, len: int, l: int)
  {
    && MinPieceLength < l <= len
    && RoundsFrom(name, parts, len) == Success(Shortened(parts, l))
    && (forall k :: l < k <= len ==> |Shortened(parts, k)| > MaxIdentifierLength)
  }

  lemma {:induction false} RoundsFromChoice(name: string, parts: seq<string>, len: int)
    requires RoundsFrom(name, parts, len).Success?
    ensures exists l :: ChosenLength(name, parts, len, l)
    decreases len
  {
    var candidate := Shortened(parts, len);
    if |candidate| > MaxIdentifierLength {
      assert RoundsFrom(name, parts, len) == RoundsFrom(name, parts, len - 1);
      RoundsFromChoice(name, parts, len - 1);
      var l :| ChosenLength(name, parts, len - 1, l);
      assert ChosenLength(name, parts, len, l);
    } else {
      assert ChosenLength(name, parts, len, len);
    }
  }

  /**
   * The exact failure condition: GetFkName throws "FK name too long" precisely
   * when the name is over the limit and even pieces of 11 characters do not
   * make it fit (the round with pieces of 10 throws whatever it produces).
   * A shortened result is the candidate of the longest piece length in 11..18
   * that fits.
   */
  lemma {:induction false} FkNameOutcome(name: string)
    ensures FkName(name).Failure? <==>
      |name| > MaxIdentifierLength && |Shortened(Split(name), MinPieceLength + 1)| > MaxIdentifierLength
    ensures FkName(name).Failure? ==> FkName(name).error == "FK name too long: " + name
    ensures FkName(name).Success? && |name| > MaxIdentifierLength ==>
      exists l :: MinPieceLength < l <= InitialPieceLength &&
        FkName(name).value == Shortened(Split(name), l) &&
        (forall k :: l < k <= InitialPieceLength ==> |Shortened(Split(name), k)| > MaxIdentifierLength)
  {
    if |name| > MaxIdentifierLength {
      RoundsFromSucceeds(name, Split(name), InitialPieceLength);
      RoundsFromFailure(name, Split(name), InitialPieceLength);
      if FkName(name).Success? {
        RoundsFromChoice(name, Split(name), InitialPieceLength);
        var l :| ChosenLength(name, Split(name), InitialPieceLength, l);
      }
    }
  }

  lemma {:induction false} RoundsFromFailure(name: string, parts: seq<string>, len: int)
    ensures RoundsFrom(name, parts, len).Failure? ==> RoundsFrom(name, parts, len).error == "FK name too long: " + name
    decreases len
  {
    if len > MinPieceLength && |Shortened(parts, len)| > MaxIdentifierLength {
      RoundsFromFailure(name, parts, len - 1);
    }
  }

  lemma {:induction false} ShortenedAtMostConcat(parts: seq<string>, len: nat)
    ensures |Shortened(parts, len)| <= |Concat(parts)|
    decreases |parts|
  {
    if parts != [] {
      ShortenedAtMostConcat(parts[1..], len);
    }
  }

  lemma {:induction false} JoinLength(parts: seq<string>)
    requires |parts| >= 1
    ensures |Join(parts)| == |Concat(parts)| + 2 * (|parts| - 1)
    decreases |parts|
  {
    if |parts| > 1 {
      JoinLength(parts[1..]);
    } else {
      assert Concat(parts) == parts[0] + Concat([]);
    }
  }

  /** A shortening round never produces a name longer than the input. */
  lemma {:induction false} ShortenedNotLonger(name: string, len: nat)
    ensures |Shortened(Split(name), len)| <= |name|
  {
    JoinSplit(name);
    JoinLength(Split(name));
    ShortenedAtMostConcat(Split(name), len);
  }

  /** Each piece of a shortened name is a prefix of its original piece, of length min(|piece|, len). */
  lemma {:induction false} ShortenedPieces(parts: seq<string>, len: nat)
    ensures Shortened(parts, len) ==
      Concat(seq(|parts|, i requires 0 <= i < |parts| => Truncate(parts[i], len)))
    ensures forall i :: 0 <= i < |parts| ==>
      Truncate(parts[i], len) <= parts[i] && |Truncate(parts[i], len)| == if |parts[i]| > len then len else |parts[i]|
    decreases |parts|
  {
    if parts != [] {
      ShortenedPieces(parts[1..], len);
      var all := seq(|parts|, i requires 0 <= i < |parts| => Truncate(parts[i], len));
      var tail := seq(|parts| - 1, i requires 0 <= i < |parts| - 1 => Truncate(parts[1..][i], len));
      assert all[1..] == tail;
    }
  }

  // ---------------------------------------------------------------------------
  // The three Apply overloads
  // ---------------------------------------------------------------------------

  /** The relationship as a many-to-one, one-to-one or many-to-many instance presents it. */
  datatype Relationship =
    | ManyToOne(entityTypeName: string, className: string, memberName: string)
    | OneToOne(entityTypeName: string, inspectorClassName: string, memberName: string)
    | ManyToMany(entityTypeName: string, otherSideEntityTypeName: string, collectionName: string)

  /** The unshortened constraint name. */
  function FullFkName(entityTable: string, otherTable: string, memberTable: string): string
  {
    "fk__" + entityTable + "__" + otherTable + "__" + memberTable
  }

  /** The three names each overload hands to the naming strategy, in order. */
  function TableNames(tableName: string -> string, rel: Relationship): seq<string>
  {
    match rel
    case ManyToOne(e, c, m) => [tableName(e), tableName(c), tableName(m)]
    case OneToOne(e, c, m) => [tableName(e), tableName(c), tableName(m)]
    case ManyToMany(e, o, c) => [tableName(e), tableName(o), tableName(c)]
  }

  /**
   * Apply: the name handed to ForeignKey (Success) or the exception (Failure).
   * All three overloads build the same shape from the naming strategy's table names.
   */
  function Apply(tableName: string -> string, rel: Relationship): Result<string>
  {
    var t := TableNames(tableName, rel);
    FkName(FullFkName(t[0], t[1], t[2]))
  }

  /** A plain piece, "__" and a rest: the piece comes back first, then the rest's pieces. */
  lemma {:induction false} SplitSeparated(p: string, rest: string)
    requires Plain(p)
    ensures Split(p + ("__" + rest)) == [p] + Split(rest)
  {
    var t := "__" + rest;
    SplitPlainPrefix(p, t);
    assert t[2..] == rest;
  }

  lemma {:induction false} FullFkNameNested(a: string, b: string, c: string)
    ensures FullFkName(a, b, c) == "fk" + ("__" + (a + ("__" + (b + ("__" + c)))))
  {
  }

  lemma {:induction false} SplitFullFkName(a: string, b: string, c: string)
    requires Plain(a) && Plain(b) && Plain(c)
    ensures Split(FullFkName(a, b, c)) == ["fk", a, b, c]
  {
    var bc := b + ("__" + c);
    var abc := a + ("__" + bc);
    FullFkNameNested(a, b, c);
    SplitPlain(c);
    SplitSeparated(b, c);
    SplitSeparated(a, bc);
    assert Plain("fk");
    SplitSeparated("fk", abc);
  }

  lemma {:induction false} ShortenedFourPieces(a: string, b: string, c: string, l: nat)
    requires l >= 2
    ensures Shortened(["fk", a, b, c], l) == "fk" + Truncate(a, l) + Truncate(b, l) + Truncate(c, l)
  {
    assert Shortened([c], l) == Truncate(c, l) by {
      assert [c][1..] == [];
    }
    assert Shortened([b, c], l) == Truncate(b, l) + Truncate(c, l) by {
      assert [b, c][1..] == [c];
    }
    assert Shortened([a, b, c], l) == Truncate(a, l) + (Truncate(b, l) + Truncate(c, l)) by {
      assert [a, b, c][1..] == [b, c];
    }
    assert Shortened(["fk", a, b, c], l) == Truncate("fk", l) + Shortened([a, b, c], l) by {
      assert ["fk", a, b, c][1..] == [a, b, c];
    }
  }

  /**
   * When the naming strategy's table names contain no "__" and do not end in
   * '_', a shortened constraint name is "fk" followed by the three table names,
   * each cut to the same length l in 11..18, with no separators left.
   */
  lemma {:induction false} ApplyShortensTableNames(tableName: string -> string, rel: Relationship)
    requires forall i :: 0 <= i < 3 ==> Plain(TableNames(tableName, rel)[i])
    ensures
      var t := TableNames(tableName, rel);
      var full := FullFkName(t[0], t[1], t[2]);
      (|full| <= MaxIdentifierLength ==> Apply(tableName, rel) == Success(full)) &&
      (Apply(tableName, rel).Success? && |full| > MaxIdentifierLength ==>
        exists l :: MinPieceLength < l <= InitialPieceLength &&
          Apply(tableName, rel).value == "fk" + Truncate(t[0], l) + Truncate(t[1], l) + Truncate(t[2], l))
  {
    var t := TableNames(tableName, rel);
    var full := FullFkName(t[0], t[1], t[2]);
    if |full| > MaxIdentifierLength && FkName(full).Success? {
      assert Plain(t[0]) && Plain(t[1]) && Plain(t[2]);
      SplitFullFkName(t[0], t[1], t[2]);
      FkNameOutcome(full);
      var l :| MinPieceLength < l <= InitialPieceLength && FkName(full).value == Shortened(Split(full), l);
      ShortenedFourPieces(t[0], t[1], t[2], l);
    }
  }
}
