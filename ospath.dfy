/**
 `os.path.join` with two arguments, as the POSIX implementation of Python's
 `posixpath` module defines it.
 */
module OsPath {
  import opened PyStr

  const Sep: char := '/'

  /**
   `os.path.join(a, b)`: an absolute `b` replaces `a`; otherwise `b` is appended
   to `a`, with a separator in between unless `a` is empty or already ends in one.
   */
  function Join(a: Str, b: Str): (r: Str)
    ensures |b| <= |r| && r[|r| - |b|..] == b
    ensures StartsWith(b, [Sep]) ==> r == b
    ensures !StartsWith(b, [Sep]) ==> r == a + b || r == a + [Sep] + b
    ensures !StartsWith(b, [Sep]) && a != [] && a[|a| - 1] != Sep ==> r == a + [Sep] + b
  {
    if StartsWith(b, [Sep]) then b
    else if a == [] || a[|a| - 1] == Sep then a + b
    else a + [Sep] + b
  }

  /** The usual case: a relative name under a directory written without a trailing separator. */
  lemma JoinPlain(a: Str, b: Str)
    requires a != [] && a[|a| - 1] != Sep
    requires b == [] || b[0] != Sep
    ensures Join(a, b) == a + [Sep] + b
  {
  }
}
