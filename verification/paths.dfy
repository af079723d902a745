/**
 The bounded path helpers: `pathcpy`, `pathcat` and `pathslash`. A
 destination is the whole `char` array (its length is the `size` the
 caller passes); a source is any byte sequence read up to its first NUL.
 Where the C code prints "Path too long" and exits, the model answers
 `None`.
 */
module Paths {
  import opened Base

  /** `memcpy(dst + at, t, |t|)`: overwrite `dst` from index `at`. */
  function Overwrite(dst: seq<byte>, at: nat, t: seq<byte>): (r: seq<byte>)
    requires at + |t| <= |dst|
    ensures |r| == |dst|
    ensures r[..at] == dst[..at] && r[at..at + |t|] == t
    ensures r[at + |t|..] == dst[at + |t|..]
  {
    dst[..at] + t + dst[at + |t|..]
  }

  /** A C string inside its array: the terminator lies within the array. */
  predicate Terminated(s: seq<byte>) { Strlen(s) < |s| }

  /** The text of a terminated array whose first `n` bytes are `t` (no NUL)
      and whose byte `n` is NUL. */
  lemma CStrOf(r: seq<byte>, t: seq<byte>)
    requires |t| < |r| && r[..|t|] == t && r[|t|] == NUL
    requires forall i :: 0 <= i < |t| ==> t[i] != NUL
    ensures Strlen(r) == |t| && CStr(r) == t
    decreases |t|
  {
    if |t| > 0 {
      assert r[1..][..|t| - 1] == t[1..];
      CStrOf(r[1..], t[1..]);
    }
  }

  /** pathcpy: the source string with its terminator, when it fits. */
  function PathCpy(dst: seq<byte>, src: seq<byte>): (r: Option<seq<byte>>)
    ensures r.Some? <==> |CStr(src)| + 1 <= |dst|
    ensures r.Some? ==> |r.value| == |dst| && Terminated(r.value) && CStr(r.value) == CStr(src)
    ensures r.Some? ==> r.value[|CStr(src)| + 1..] == dst[|CStr(src)| + 1..]
  {
    var len := Strlen(src);
    if len + 1 > |dst| then None
    else
      var out := Overwrite(dst, 0, CStr(src) + [NUL]);
      assert out[..len] == CStr(src) && out[len] == NUL by {
        assert out[..len + 1] == CStr(src) + [NUL];
      }
      CStrOf(out, CStr(src));
      Some(out)
  }

  /** pathcat: the source string appended after the destination's, when
      both and one terminator fit. */
  function PathCat(dst: seq<byte>, src: seq<byte>): (r: Option<seq<byte>>)
    requires Terminated(dst)
    ensures r.Some? <==> |CStr(dst)| + |CStr(src)| + 1 <= |dst|
    ensures r.Some? ==> |r.value| == |dst| && Terminated(r.value)
    ensures r.Some? ==> CStr(r.value) == CStr(dst) + CStr(src)
    ensures r.Some? ==> r.value[|CStr(dst)| + |CStr(src)| + 1..] == dst[|CStr(dst)| + |CStr(src)| + 1..]
  {
    var dl := Strlen(dst);
    var sl := Strlen(src);
    if dl + sl + 1 > |dst| then None
    else
      var out := Overwrite(dst, dl, CStr(src) + [NUL]);
      var t := CStr(dst) + CStr(src);
      assert out[..dl + sl] == t && out[dl + sl] == NUL by {
        assert out[..dl] == dst[..dl];
        assert out[dl..dl + sl + 1] == CStr(src) + [NUL];
        assert out[..dl + sl] == out[..dl] + out[dl..dl + sl + 1][..sl];
      }
      CStrOf(out, t);
      Some(out)
  }

  /** Whether `pathslash` has anything to add: a non-empty path that does
      not already end with '/'. */
  predicate NeedsSlash(dst: seq<byte>)
    requires Terminated(dst)
  {
    Strlen(dst) > 0 && dst[Strlen(dst) - 1] != SLASH
  }

  /** The array with '/' and a new terminator stored after the path. */
  function AddSlash(dst: seq<byte>): (r: seq<byte>)
    requires Terminated(dst) && Strlen(dst) + 2 <= |dst|
    ensures |r| == |dst| && Terminated(r) && CStr(r) == CStr(dst) + [SLASH]
    ensures r[Strlen(dst) + 2..] == dst[Strlen(dst) + 2..]
  {
    var len := Strlen(dst);
    var out := Overwrite(dst, len, [SLASH, NUL]);
    assert out[..len + 1] == CStr(dst) + [SLASH] && out[len + 1] == NUL by {
      assert out[..len] == dst[..len];
      assert out[len..len + 2] == [SLASH, NUL];
      assert out[..len + 1] == out[..len] + [out[len]];
    }
    CStrOf(out, CStr(dst) + [SLASH]);
    out
  }

  /** pathslash as written: when a slash is needed it refuses any path
      with `len + 2 >= size`, although `len + 2 == size` leaves exactly
      room for the slash and the terminator. */
  function PathSlashAsWritten(dst: seq<byte>): (r: Option<seq<byte>>)
    requires Terminated(dst)
    ensures r.None? <==> NeedsSlash(dst) && Strlen(dst) + 2 >= |dst|
  {
    var len := Strlen(dst);
    if len > 0 && dst[len - 1] != SLASH then
      if len + 2 >= |dst| then None
      else Some(AddSlash(dst))
    else Some(dst)
  }

  /** The refusal of a path that fits: "a" in a 3-byte array. */
  lemma PathSlashRefusesFit()
    ensures var dst: seq<byte> := [97, NUL, NUL];
      && Terminated(dst) && Strlen(dst) + 2 <= |dst|
      && PathSlashAsWritten(dst).None?
  {
    var dst: seq<byte> := [97, NUL, NUL];
    assert Strlen(dst[1..]) == 0;
  }

  /** pathslash with the bound the other path helpers use: it fails only
      when the slash and the terminator do not fit. */
  function PathSlash(dst: seq<byte>): (r: Option<seq<byte>>)
    requires Terminated(dst)
    ensures r.None? <==> NeedsSlash(dst) && Strlen(dst) + 2 > |dst|
    ensures r.Some? ==> |r.value| == |dst| && Terminated(r.value)
    ensures r.Some? && NeedsSlash(dst) ==> CStr(r.value) == CStr(dst) + [SLASH]
    ensures r.Some? && !NeedsSlash(dst) ==> r.value == dst
  {
    var len := Strlen(dst);
    if len > 0 && dst[len - 1] != SLASH then
      if len + 2 > |dst| then None
      else Some(AddSlash(dst))
    else Some(dst)
  }

  /** Both versions agree wherever the written one succeeds. */
  lemma PathSlashAgrees(dst: seq<byte>)
    requires Terminated(dst)
    ensures PathSlashAsWritten(dst).Some? ==> PathSlash(dst) == PathSlashAsWritten(dst)
  {
  }

  /** A path ending in '/' (or empty) is left alone, so a second call
      changes nothing. */
  lemma {:induction false} PathSlashIdempotent(dst: seq<byte>)
    requires Terminated(dst)
    ensures PathSlash(dst).Some? ==>
      && PathSlash(PathSlash(dst).value) == PathSlash(dst)
      && !NeedsSlash(PathSlash(dst).value)
  {
    if NeedsSlash(dst) && PathSlash(dst).Some? {
      var r := PathSlash(dst).value;
      assert Strlen(r) == Strlen(dst) + 1;
      assert r[Strlen(r) - 1] == CStr(r)[Strlen(r) - 1] == SLASH;
    }
  }

  /** The same for the version as written. */
  lemma {:induction false} PathSlashAsWrittenIdempotent(dst: seq<byte>)
    requires Terminated(dst)
    ensures PathSlashAsWritten(dst).Some? ==>
      PathSlashAsWritten(PathSlashAsWritten(dst).value) == PathSlashAsWritten(dst)
  {
    if PathSlashAsWritten(dst).Some? {
      PathSlashAgrees(dst);
      PathSlashIdempotent(dst);
    }
  }
}
