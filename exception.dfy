/**
 * `jewel::Exception`: an exception whose message, type, function and
 * file path are each kept in a `CappedString<211>`, so that building one
 * never allocates.  Every string is passed through `truncate`, which
 * keeps at most 200 chars and appends the stamp "(TRUNCATED)".  Because
 * the buffer is NUL-padded, a message shorter than 200 chars reads back
 * unchanged through `what()`, which stops at the first NUL.
 */
module Exception {
  import opened CappedString

  datatype Option<T> = None | Some(value: T)

  const TruncationStampCapacity: nat := 11
  const StringCapacity: nat := 211
  const Stamp: seq<char> := "(TRUNCATED)"

  /** `max_message_size()`. */
  function MaxMessageSize(): (n: nat)
    ensures n == 200
  {
    StringCapacity - TruncationStampCapacity
  }

  /** What `what()` shows for a message whose text (up to its first NUL) is c. */
  function Shown(c: seq<char>): seq<char> {
    if |c| < MaxMessageSize() then c else c[..MaxMessageSize()] + Stamp
  }

  /** A `char const*` argument the constructors can read: NUL-terminated, or longer than the capacity. */
  predicate Readable(s: seq<char>) {
    NUL in s || |s| > StringCapacity
  }

  /**
   * `truncate<N>`: a copy of the string, cut or NUL-padded to N - 11
   * chars, then the stamp appended (through the `char const*`
   * conversion of `stamp.c_str()`).  The result fills the capacity and is
   * not marked truncated.
   */
  method Truncate(p: CappedString) returns (r: CappedString)
    requires p.Valid() && p.N > TruncationStampCapacity
    ensures fresh(r) && fresh(r.data) && r.Valid() && r.N == p.N
    ensures r.Contents() == Resized(p.Contents(), p.N - TruncationStampCapacity) + Stamp
    ensures !r.truncated && r.Size() == r.Capacity()
  {
    var stamp := new CappedString.FromCString(TruncationStampCapacity, Stamp + [NUL]);
    StampText();
    r := new CappedString.Copy(p);
    r.Resize(p.N - TruncationStampCapacity);
    ghost var kept := r.Contents();
    assert kept == Resized(p.Contents(), p.N - TruncationStampCapacity);
    var converted := new CappedString.FromCString(p.N, stamp.CStr() + [NUL]);
    assert CString(stamp.CStr() + [NUL]) == Stamp by {
      CStringUnique(stamp.CStr() + [NUL], Stamp);
    }
    ghost var added := converted.Contents();
    StampFits(kept, p.N);
    assert added == Stamp && !converted.truncated;
    r.Append(converted);
    assert r.Contents() == Capped(kept + added, p.N);
  }

  // The stamp fills exactly the room that truncate leaves.
  lemma StampFits(kept: seq<char>, n: nat)
    requires n > TruncationStampCapacity && |kept| == n - TruncationStampCapacity
    ensures Capped(Stamp, n) == Stamp && Capped(kept + Stamp, n) == kept + Stamp
    ensures |kept| + |Stamp| == n
  {
  }

  // The stamp has no NUL, so it is read back whole.
  lemma StampText()
    ensures NUL !in Stamp && CString(Stamp + [NUL]) == Stamp
    ensures Capped(CString(Stamp + [NUL]), TruncationStampCapacity) == Stamp
  {
    CStringUnique(Stamp + [NUL], Stamp);
  }

  /** `truncate_c_str<N>`: a null pointer gives an empty string; otherwise truncate a copy. */
  method TruncateCStr(p: Option<seq<char>>) returns (r: CappedString)
    requires p.Some? ==> Readable(p.value)
    ensures fresh(r) && r.Valid() && r.N == StringCapacity
    ensures p.None? ==> r.Contents() == []
    ensures p.Some? ==> r.Contents() == Resized(Capped(CString(p.value), StringCapacity), MaxMessageSize()) + Stamp
  {
    if p.None? {
      r := new CappedString.Empty(StringCapacity);
    } else {
      var initial := new CappedString.FromCString(StringCapacity, p.value);
      r := Truncate(initial);
    }
  }

  /**
   * What `c_str()` of a truncated string shows: the text if it is
   * shorter than 200 chars, else its first 200 chars and the stamp.
   */
  lemma WhatShows(c: seq<char>)
    requires NUL !in c
    ensures CString(Resized(Capped(c, StringCapacity), MaxMessageSize()) + Stamp) == Shown(c)
  {
    var kept := Capped(c, StringCapacity);
    var s := Resized(kept, MaxMessageSize()) + Stamp;
    if |c| < MaxMessageSize() {
      assert kept == c && s[|c|] == NUL;
      CStringStopsAtNul(s, |c|);
      assert s[..|c|] == c;
      CStringUnique(c, c);
    } else {
      assert Resized(kept, MaxMessageSize()) == c[..MaxMessageSize()];
      assert NUL !in c[..MaxMessageSize()];
      assert NUL !in s;
      CStringUnique(s, s);
    }
  }

  /** A message of exactly 200 chars already shows the stamp. */
  lemma ExactlyMaxIsStamped(c: seq<char>)
    requires NUL !in c && |c| == MaxMessageSize()
    ensures Shown(c) == c + Stamp
  {
  }

  class Exception {
    const message: CappedString
    const kind: CappedString
    const functionName: CappedString
    const filepath: CappedString
    const line: int

    ghost predicate Valid()
      reads this, message, message.data, kind, kind.data
      reads functionName, functionName.data, filepath, filepath.data
    {
      message.Valid() && kind.Valid() && functionName.Valid() && filepath.Valid()
    }

    /**
     * The constructor: each of the four strings is truncated the same
     * way (a null pointer giving an empty string); `line` is kept as is,
     * -1 meaning that none was supplied.
     */
    constructor (pMessage: Option<seq<char>>, pType: Option<seq<char>>,
                 pFunction: Option<seq<char>>, pFilepath: Option<seq<char>>, pLine: int)
      requires pMessage.Some? ==> Readable(pMessage.value)
      requires pType.Some? ==> Readable(pType.value)
      requires pFunction.Some? ==> Readable(pFunction.value)
      requires pFilepath.Some? ==> Readable(pFilepath.value)
      ensures Valid()
      ensures Message() == ShownArgument(pMessage) && Type() == ShownArgument(pType)
      ensures Function() == ShownArgument(pFunction) && Filepath() == ShownArgument(pFilepath)
      ensures Line() == pLine
    {
      var m := TruncateCStr(pMessage);
      var t := TruncateCStr(pType);
      var f := TruncateCStr(pFunction);
      var p := TruncateCStr(pFilepath);
      ShownArgumentIs(pMessage);
      ShownArgumentIs(pType);
      ShownArgumentIs(pFunction);
      ShownArgumentIs(pFilepath);
      message, kind, functionName, filepath := m, t, f, p;
      line := pLine;
    }

    /** `what()`, the same as `message()`. */
    function What(): seq<char>
      reads this, message, message.data, kind, kind.data
      reads functionName, functionName.data, filepath, filepath.data
      requires Valid()
    {
      Message()
    }

    function Message(): seq<char>
      reads this, message, message.data, kind, kind.data
      reads functionName, functionName.data, filepath, filepath.data
      requires Valid()
    {
      message.CStr()
    }

    function Type(): seq<char>
      reads this, message, message.data, kind, kind.data
      reads functionName, functionName.data, filepath, filepath.data
      requires Valid()
    {
      kind.CStr()
    }

    function Function(): seq<char>
      reads this, message, message.data, kind, kind.data
      reads functionName, functionName.data, filepath, filepath.data
      requires Valid()
    {
      functionName.CStr()
    }

    function Filepath(): seq<char>
      reads this, message, message.data, kind, kind.data
      reads functionName, functionName.data, filepath, filepath.data
      requires Valid()
    {
      filepath.CStr()
    }

    function Line(): int
      reads this
    {
      line
    }
  }

  /** What a getter shows for a constructor argument: nothing for a null pointer. */
  function ShownArgument(p: Option<seq<char>>): seq<char> {
    if p.None? then [] else Shown(CString(p.value))
  }

  lemma ShownArgumentIs(p: Option<seq<char>>)
    ensures p.None? ==> CString([]) == ShownArgument(p)
    ensures p.Some? ==> CString(Resized(Capped(CString(p.value), StringCapacity), MaxMessageSize()) + Stamp) == ShownArgument(p)
  {
    if p.Some? {
      WhatShows(CString(p.value));
    }
  }

  /** The library's test message is shown unchanged. */
  lemma ShortMessageExample()
    ensures ShownArgument(Some("Something's cooking." + [NUL])) == "Something's cooking."
  {
    var s := "Something's cooking." + [NUL];
    CStringUnique(s, "Something's cooking.");
  }
}
