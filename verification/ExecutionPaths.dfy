/** What the validators of src/echoes/manifest.py are for: paths that cannot leave their root, one file per record, and
    digests that are digests. */
module ExecutionPaths {
  import opened ExecutionManifests
  import opened ByteLines
  import Text

  // ----- Confined paths -----

  /** Where a walk over path components leads: empty and `.` components stay, `..` climbs. */
  function Walk(place: seq<string>, parts: seq<string>): seq<string>
    decreases |parts|
  {
    if parts == [] then place
    else if parts[0] == "" || parts[0] == "." then Walk(place, parts[1..])
    else if parts[0] == ".." then Walk(if place == [] then [] else place[..|place| - 1], parts[1..])
    else Walk(place + [parts[0]], parts[1..])
  }

  predicate AllPlain(parts: seq<string>) {
    forall i :: 0 <= i < |parts| ==> parts[i] != "" && parts[i] != "." && parts[i] != ".."
  }

  lemma {:induction false} WalkGrowsAtMost(place: seq<string>, parts: seq<string>)
    ensures |Walk(place, parts)| <= |place| + |parts|
    ensures |Walk(place, parts)| == |place| + |parts| ==> AllPlain(parts)
    decreases |parts|
  {
    if parts != [] {
      var next := if parts[0] == "" || parts[0] == "." then place
                  else if parts[0] == ".." then (if place == [] then [] else place[..|place| - 1])
                  else place + [parts[0]];
      WalkGrowsAtMost(next, parts[1..]);
      assert parts == [parts[0]] + parts[1..];
    }
  }

  lemma {:induction false} PlainWalkAppends(place: seq<string>, parts: seq<string>)
    requires AllPlain(parts)
    ensures Walk(place, parts) == place + parts
    decreases |parts|
  {
    if parts != [] {
      assert AllPlain(parts[1..]);
      PlainWalkAppends(place + [parts[0]], parts[1..]);
      assert place + [parts[0]] + parts[1..] == place + parts;
    } else {
      assert place + parts == place;
    }
  }

  /** A POSIX path that Windows does not read as its own is confined exactly when walking it from any place ends that
      place's components followed by its own: nothing is climbed, skipped or left out. */
  lemma {:induction false} ConfinedExactlyWhen(path: string, root: seq<string>)
    requires '\\' !in path && !(|path| >= 2 && path[1] == ':')
    ensures var parts := Text.Split(path, '/'); IsConfinedPath(path) <==> Walk(root, parts) == root + parts
  {
    var parts := Text.Split(path, '/');
    ConfinedMeansPlain(path);
    if AllPlain(parts) { PlainWalkAppends(root, parts); }
    if Walk(root, parts) == root + parts { WalkGrowsAtMost(root, parts); }
  }

  lemma {:induction false} ConfinedMeansPlain(path: string)
    requires '\\' !in path && !(|path| >= 2 && path[1] == ':')
    ensures IsConfinedPath(path) <==> AllPlain(Text.Split(path, '/'))
  {
    var parts := Text.Split(path, '/');
    if path == "" {
      Text.SplitWhole(path, '/');
      assert parts[0] == "";
    }
    if AllPlain(parts) {
      forall part | part in parts ensures part != "" && part != "." && part != ".." {
        var i :| 0 <= i < |parts| && parts[i] == part;
      }
    }
    if IsConfinedPath(path) {
      forall i | 0 <= i < |parts| ensures parts[i] != "" && parts[i] != "." && parts[i] != ".." {
        assert parts[i] in parts;
      }
    }
  }

  /** So at no point does the walk leave the root. */
  lemma {:induction false} ConfinedStaysBelow(path: string, root: seq<string>, k: nat)
    requires IsConfinedPath(path) && k <= |Text.Split(path, '/')|
    ensures root <= Walk(root, Text.Split(path, '/')[..k])
  {
    ConfinedMeansPlain(path);
    PlainWalkAppends(root, Text.Split(path, '/')[..k]);
  }

  // ----- One file per record -----

  /** `run_id / f"{execution_id}.json"`, below the manifest root. */
  function FileOf(l: Location): string { l.runId + "/" + l.executionId + ".json" }

  lemma {:induction false} SafeIsPlain(s: string)
    requires IsSafeIdentifier(s)
    ensures '/' !in s && '\\' !in s && ':' !in s && s != "" && s[0] != '.'
  {
  }

  /** The file of a record with safe identifiers lies two levels below the root and stays there. */
  lemma {:induction false} RecordFileIsConfined(l: Location)
    requires IsSafeIdentifier(l.runId) && IsSafeIdentifier(l.executionId)
    ensures IsConfinedPath(FileOf(l)) && Text.Split(FileOf(l), '/') == [l.runId, l.executionId + ".json"]
  {
    SafeIsPlain(l.runId);
    SafeIsPlain(l.executionId);
    var name := l.executionId + ".json";
    assert '/' !in name && name[0] == l.executionId[0];
    Text.SplitAt(l.runId, '/', name);
    Text.SplitWhole(name, '/');
    assert FileOf(l) == l.runId + ['/'] + name;
    assert [l.runId] + [name] == [l.runId, name];
    assert FileOf(l)[0] == l.runId[0];
    assert FileOf(l)[1] == if |l.runId| == 1 then '/' else l.runId[1];
  }

  /** Two records never share a file. */
  lemma {:induction false} FilesTellRecordsApart(l: Location, m: Location)
    requires IsSafeIdentifier(l.runId) && IsSafeIdentifier(l.executionId)
    requires IsSafeIdentifier(m.runId) && IsSafeIdentifier(m.executionId) && FileOf(l) == FileOf(m)
    ensures l == m
  {
    RecordFileIsConfined(l);
    RecordFileIsConfined(m);
    var a, b := l.executionId + ".json", m.executionId + ".json";
    assert [l.runId, a][1] == [m.runId, b][1] && [l.runId, a][0] == [m.runId, b][0];
    assert l.executionId == a[..|a| - 5] && m.executionId == b[..|b| - 5];
  }

  // ----- Digests -----

  function HexDigit(n: nat): char
    requires n < 16
  {
    if n < 10 then '0' + n as char else 'a' + (n - 10) as char
  }

  /** The hexadecimal text of some bytes. */
  function Hex(bytes: seq<Byte>): string {
    if bytes == [] then ""
    else [HexDigit(bytes[0] as nat / 16), HexDigit(bytes[0] as nat % 16)] + Hex(bytes[1..])
  }

  predicate IsHex(s: string) { forall i :: 0 <= i < |s| ==> '0' <= s[i] <= '9' || 'a' <= s[i] <= 'f' }

  lemma {:induction false} HexIsHex(bytes: seq<Byte>)
    ensures |Hex(bytes)| == 2 * |bytes| && IsHex(Hex(bytes))
  {
    if bytes != [] { HexIsHex(bytes[1..]); }
  }

  lemma {:induction false} DigitHasValue(c: char) returns (n: nat)
    requires '0' <= c <= '9' || 'a' <= c <= 'f'
    ensures n < 16 && HexDigit(n) == c
  {
    n := if c <= '9' then c as int - '0' as int else c as int - 'a' as int + 10;
  }

  lemma {:induction false} HexHasBytes(s: string) returns (bytes: seq<Byte>)
    requires |s| % 2 == 0 && IsHex(s)
    ensures 2 * |bytes| == |s| && Hex(bytes) == s
  {
    if s == "" {
      bytes := [];
    } else {
      var high := DigitHasValue(s[0]);
      var low := DigitHasValue(s[1]);
      var rest := HexHasBytes(s[2..]);
      var first: Byte := (16 * high + low) as Byte;
      bytes := [first] + rest;
      assert bytes[1..] == rest && (16 * high + low) / 16 == high && (16 * high + low) % 16 == low;
      assert s == [s[0], s[1]] + s[2..];
    }
  }

  /** A text passes for a SHA-256 exactly when it is the lower-case hexadecimal text of 32 bytes. */
  lemma {:induction false} DigestExactlyWhenHex(s: string)
    ensures IsSha256(s) <==> exists bytes: seq<Byte> :: |bytes| == 32 && Hex(bytes) == s
  {
    if IsSha256(s) {
      var bytes := HexHasBytes(s);
    }
    if bytes: seq<Byte> :| |bytes| == 32 && Hex(bytes) == s {
      HexIsHex(bytes);
    }
  }
}
