/** POSIX `os.path.join` of two components. */
module OsPath {

  /** `os.path.join(a, b)`: an absolute `b` replaces `a`; otherwise `b` is appended
      after exactly the one separator `a` lacks. */
  function Join(a: string, b: string): (r: string)
    ensures |b| <= |r| && r[|r| - |b|..] == b
    ensures |b| > 0 && b[0] == '/' ==> r == b
    ensures (|b| == 0 || b[0] != '/') ==> r[..|r| - |b|] == a || r[..|r| - |b|] == a + "/"
    ensures (|b| == 0 || b[0] != '/') && |r| > |b| ==> r[|r| - |b| - 1] == '/'
    ensures (|b| == 0 || b[0] != '/') && (a == "" || a[|a| - 1] == '/') ==> r == a + b
    ensures (|b| == 0 || b[0] != '/') && a != "" && a[|a| - 1] != '/' ==> r == a + "/" + b
  {
    if |b| > 0 && b[0] == '/' then b
    else if a == "" || a[|a| - 1] == '/' then a + b
    else a + "/" + b
  }
}
