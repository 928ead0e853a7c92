/** IntUtilities: the SQL escaping of table names and the SQLite file-header test. */
module Utilities {
  import opened Wrappers
  import opened Bytes
  import Data

  /** The characters the pattern [\r\n\x00\x1a\\'"] matches. */
  predicate IsEscapable(c: char)
  {
    c == '\r' || c == '\n' || c == '\0' || c == '\U{1A}' || c == '\\' || c == '\'' || c == '"'
  }

  /** Regex.Replace(s, @"[\r\n\x00\x1a\\'""]", @"\$0"): a backslash before every escapable character. */
  function EscapeString(s: string): string
  {
    if s == [] then []
    else (if IsEscapable(s[0]) then ['\\', s[0]] else [s[0]]) + EscapeString(s[1..])
  }

  /** SqlEscape: null stays null. */
  function SqlEscape(s: Option<string>): (r: Option<string>)
    ensures r.None? <==> s.None?
  {
    match s
    case None => None
    case Some(t) => Some(EscapeString(t))
  }

  function CountEscapable(s: string): nat
  {
    if s == [] then 0 else (if IsEscapable(s[0]) then 1 else 0) + CountEscapable(s[1..])
  }

  /** Drops the backslash in front of each escapable character: the inverse of EscapeString. */
  function Unescape(s: string): string
    decreases |s|
  {
    if |s| >= 2 && s[0] == '\\' && IsEscapable(s[1]) then [s[1]] + Unescape(s[2..])
    else if s == [] then []
    else [s[0]] + Unescape(s[1..])
  }

  /** Each escapable character grows by one backslash; the output is that much longer. */
  lemma {:induction false} EscapeLength(s: string)
    ensures |EscapeString(s)| == |s| + CountEscapable(s)
  {
    if s != [] {
      EscapeLength(s[1..]);
    }
  }

  /** A string without escapable characters is returned as it is. */
  lemma {:induction false} EscapeIdentity(s: string)
    requires forall k :: 0 <= k < |s| ==> !IsEscapable(s[k])
    ensures EscapeString(s) == s
  {
    if s != [] {
      EscapeIdentity(s[1..]);
    }
  }

  /** So the fixed table names pass through SqlEscape untouched. */
  lemma TableNamesUnescaped(t: Data.VarType)
    ensures SqlEscape(Some(Data.TableName(t))) == Some(Data.TableName(t))
  {
    EscapeIdentity(Data.TableName(t));
  }

  /** Removing the inserted backslashes gives the input back. */
  lemma {:induction false} UnescapeEscape(s: string)
    ensures Unescape(EscapeString(s)) == s
  {
    if s != [] {
      var e := EscapeString(s);
      UnescapeEscape(s[1..]);
      if IsEscapable(s[0]) {
        assert e[2..] == EscapeString(s[1..]);
      } else {
        assert e[1..] == EscapeString(s[1..]);
      }
    }
  }

  /** Hence escaping is injective: different strings never escape to the same SQL text. */
  lemma EscapeInjective(s: string, t: string)
    requires EscapeString(s) == EscapeString(t)
    ensures s == t
  {
    UnescapeEscape(s);
    UnescapeEscape(t);
  }

  /** "SQLite format" as ASCII bytes. */
  const SQLiteMagic: seq<byte> := [0x53, 0x51, 0x4C, 0x69, 0x74, 0x65, 0x20, 0x66, 0x6F, 0x72, 0x6D, 0x61, 0x74]

  function Min(a: nat, b: nat): nat { if a < b then a else b }

  /** The 17-byte buffer after fs.Read(bytes, 0, 16): the file's first bytes, zeros after them. */
  function HeaderBuffer(file: seq<byte>): (r: seq<byte>)
    ensures |r| == 17
  {
    var n := Min(16, |file|);
    file[..n] + seq(17 - n, _ => 0 as byte)
  }

  /** ASCIIEncoding.GetString: bytes above 0x7F become '?'. */
  function AsciiDecode(b: seq<byte>): (r: string)
    ensures |r| == |b|
    ensures forall k :: 0 <= k < |b| ==> r[k] == if b[k] < 0x80 then b[k] as int as char else '?'
  {
    seq(|b|, k requires 0 <= k < |b| => if b[k] < 0x80 then b[k] as int as char else '?')
  }

  /** s contains the string p starting at position k. */
  predicate OccursAt(p: seq<char>, s: seq<char>, k: int)
  {
    0 <= k && k + |p| <= |s| && s[k..k + |p|] == p
  }

  /** string.Contains (ordinal). */
  predicate Contains(s: string, p: string)
  {
    exists k :: 0 <= k <= |s| - |p| && OccursAt(p, s, k)
  }

  /** The test isSQLiteDB applies to the bytes it read. */
  predicate IsSQLiteHeader(file: seq<byte>)
  {
    Contains(AsciiDecode(HeaderBuffer(file)), "SQLite format")
  }

  /** The 13 magic bytes occur at position k, within the first 16 bytes of the file. */
  predicate MagicAt(file: seq<byte>, k: int)
  {
    0 <= k && k + 13 <= Min(16, |file|) && file[k..k + 13] == SQLiteMagic
  }

  ghost predicate MagicInFirst16(file: seq<byte>)
  {
    exists k :: MagicAt(file, k)
  }

  lemma DecodedMagic(b: seq<byte>)
    requires |b| == 13
    ensures (AsciiDecode(b) == "SQLite format") <==> b == SQLiteMagic
  {
    var d := AsciiDecode(b);
    if d == "SQLite format" {
      forall k | 0 <= k < 13 ensures b[k] == SQLiteMagic[k] {
        assert d[k] == "SQLite format"[k];
      }
    }
  }

  lemma HeaderHasMagic(file: seq<byte>)
    requires IsSQLiteHeader(file)
    ensures MagicInFirst16(file)
  {
    var buf := HeaderBuffer(file);
    var text := AsciiDecode(buf);
    var n := Min(16, |file|);
    assert |"SQLite format"| == 13;
    var k :| 0 <= k <= |text| - 13 && OccursAt("SQLite format", text, k);
    assert text[k..k + 13] == AsciiDecode(buf[k..k + 13]);
    DecodedMagic(buf[k..k + 13]);
    // The padding is zeros and the magic ends in a non-zero byte, so the match lies in the file's bytes.
    assert buf[k + 12] == SQLiteMagic[12] != 0;
    assert forall i :: n <= i < 17 ==> buf[i] == 0;
    assert k + 13 <= n;
    assert buf[k..k + 13] == file[k..k + 13];
    assert MagicAt(file, k);
  }

  lemma MagicMakesHeader(file: seq<byte>)
    requires MagicInFirst16(file)
    ensures IsSQLiteHeader(file)
  {
    var buf := HeaderBuffer(file);
    var text := AsciiDecode(buf);
    var k :| MagicAt(file, k);
    assert buf[k..k + 13] == file[k..k + 13];
    DecodedMagic(buf[k..k + 13]);
    assert text[k..k + 13] == AsciiDecode(buf[k..k + 13]);
    assert OccursAt("SQLite format", text, k);
  }

  /** The header test holds exactly when "SQLite format" is among the first 16 bytes read. */
  lemma SQLiteHeaderIff(file: seq<byte>)
    ensures IsSQLiteHeader(file) <==> MagicInFirst16(file)
  {
    if IsSQLiteHeader(file) {
      HeaderHasMagic(file);
    }
    if MagicInFirst16(file) {
      MagicMakesHeader(file);
    }
  }

  /** A file that starts with SQLite's own header, "SQLite format 3\0", passes the test. */
  lemma SQLiteFilePasses(rest: seq<byte>)
    ensures IsSQLiteHeader(SQLiteMagic + [0x20, 0x33, 0x00] + rest)
  {
    var file := SQLiteMagic + [0x20, 0x33, 0x00] + rest;
    assert file[0..0 + 13] == SQLiteMagic;
    assert MagicAt(file, 0);
    SQLiteHeaderIff(file);
  }
}
