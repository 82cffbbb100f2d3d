/**
 * The line-based reader of a bundle's `.manifest` text file: a scope that
 * the header lines switch, and per-scope handling of the CRC line, the two
 * hash blocks, the asset list and the dependency list.
 */
module ManifestParser {
  import Common

  datatype ManifestInfo = ManifestInfo(
    assets: seq<string>,
    dependencies: seq<string>,
    crc: nat,
    assetFileHash: Common.Hash128,
    typeTreeHash: Common.Hash128)

  /** A freshly constructed record: empty lists, crc 0, all-zero hashes. */
  const EmptyManifestInfo := ManifestInfo([], [], 0, Common.ZeroHash, Common.ZeroHash)

  const PrefixOfCrc := "CRC: "
  const PrefixOfHash := "    Hash: "
  const PrefixOfListItem := "- "
  const PrefixOfHashesScope := "Hashes:"
  const PrefixOfAssetFileHashScope := "  AssetFileHash:"
  const PrefixOfTypeTreeHashScope := "  TypeTreeHash:"
  const PrefixOfAssetsScope := "Assets:"
  const PrefixOfDependencies := "Dependencies:"

  /** Largest value of a C# `uint`. */
  const UIntMax := 0xFFFF_FFFF

  datatype Scope = None | Crc | Hashes | AssetFileHash | TypeTreeHash | Assets | Dependencies

  /** The scope a header line opens, or None for any other line. */
  function GetScope(line: string): (s: Scope)
    ensures s == Crc <==> Common.StartsWith(line, PrefixOfCrc)
    ensures s == Hashes <==> line == PrefixOfHashesScope
    ensures s == Assets <==> line == PrefixOfAssetsScope
    ensures s == Dependencies <==> line == PrefixOfDependencies
    ensures s != AssetFileHash && s != TypeTreeHash
    ensures s == None <==>
      !Common.StartsWith(line, PrefixOfCrc) && line != PrefixOfHashesScope &&
      line != PrefixOfAssetsScope && line != PrefixOfDependencies
  {
    if Common.StartsWith(line, PrefixOfCrc) then
      assert line[0] == line[..|PrefixOfCrc|][0] == 'C';
      Crc
    else if line == PrefixOfHashesScope then Hashes
    else if line == PrefixOfAssetsScope then Assets
    else if line == PrefixOfDependencies then Dependencies
    else None
  }

  predicate IsDigit(c: char) {
    '0' <= c <= '9'
  }

  predicate AllDigits(s: string) {
    forall i :: 0 <= i < |s| ==> IsDigit(s[i])
  }

  /** The value of a string of decimal digits. */
  function DecimalValue(s: string): nat
    requires AllDigits(s)
  {
    if s == [] then 0 else DecimalValue(s[..|s| - 1]) * 10 + (s[|s| - 1] - '0') as int
  }

  /** The white space `uint.Parse` skips around a number: U+0009 to U+000D and U+0020. */
  predicate IsWhite(c: char) {
    c == ' ' || '\t' <= c <= '\r'
  }

  predicate AllWhite(s: string) {
    forall i :: 0 <= i < |s| ==> IsWhite(s[i])
  }

  /** `s` without its leading white space. */
  function TrimStart(s: string): (r: string)
    ensures |r| <= |s| && r == s[|s| - |r|..]
    ensures r == [] || !IsWhite(r[0])
    ensures AllWhite(s[..|s| - |r|])
  {
    if s != [] && IsWhite(s[0]) then
      var r := TrimStart(s[1..]);
      assert s[..|s| - |r|] == [s[0]] + s[1..][..|s| - 1 - |r|];
      r
    else s
  }

  /** `s` without its trailing white space. */
  function TrimEnd(s: string): (r: string)
    ensures |r| <= |s| && r == s[..|r|]
    ensures r == [] || !IsWhite(r[|r| - 1])
    ensures AllWhite(s[|r|..])
  {
    if s != [] && IsWhite(s[|s| - 1]) then
      var r := TrimEnd(s[..|s| - 1]);
      assert s[|r|..] == s[..|s| - 1][|r|..] + [s[|s| - 1]];
      r
    else s
  }

  /**
   * The number between the white space: digits after an optional `+` or
   * `-`; a minus sign is only accepted before a value of zero, and a value
   * past 2^32-1 overflows.
   */
  function ParseSigned(t: string): Common.Option<nat> {
    var negative := t != [] && t[0] == '-';
    var d := if t != [] && (t[0] == '+' || t[0] == '-') then t[1..] else t;
    if d != [] && AllDigits(d) && DecimalValue(d) <= UIntMax && (!negative || DecimalValue(d) == 0) then
      Common.Some(DecimalValue(d))
    else Common.None
  }

  /**
   * `uint.Parse` with its default style (NumberStyles.Integer): leading and
   * trailing white space, an optional sign, decimal digits, at most 2^32-1;
   * anything else throws (here: no value).
   */
  function ParseUInt(s: string): (r: Common.Option<nat>)
    ensures r.Some? ==> r.value <= UIntMax
  {
    ParseSigned(TrimEnd(TrimStart(s)))
  }

  /** White space before a string that does not start with white space is all TrimStart drops. */
  lemma {:induction false} TrimStartPadded(w: string, x: string)
    requires AllWhite(w) && (x == [] || !IsWhite(x[0]))
    ensures TrimStart(w + x) == x
  {
    if w != [] {
      assert (w + x)[1..] == w[1..] + x;
      TrimStartPadded(w[1..], x);
    }
  }

  /** White space after a string that does not end with white space is all TrimEnd drops. */
  lemma {:induction false} TrimEndPadded(x: string, w: string)
    requires AllWhite(w) && (x == [] || !IsWhite(x[|x| - 1]))
    ensures TrimEnd(x + w) == x
  {
    if w != [] {
      assert (x + w)[..|x + w| - 1] == x + w[..|w| - 1];
      TrimEndPadded(x, w[..|w| - 1]);
    }
  }

  /** An optional sign before digits: the number ParseSigned reads. */
  lemma ParseSignedDigits(sign: string, d: string)
    requires (sign == "" || sign == "+" || sign == "-") && d != [] && AllDigits(d)
    ensures ParseSigned(sign + d) ==
      if DecimalValue(d) <= UIntMax && (sign != "-" || DecimalValue(d) == 0) then Common.Some(DecimalValue(d))
      else Common.None
  {
    var t := sign + d;
    assert IsDigit(d[0]);
    if sign != "" {
      assert t[0] == sign[0] && t[1..] == d;
    } else {
      assert t == d;
    }
  }

  /** Around a string that neither starts nor ends with white space, TrimStart and TrimEnd drop the padding. */
  lemma TrimPadded(w1: string, t: string, w2: string)
    requires AllWhite(w1) && AllWhite(w2) && t != [] && !IsWhite(t[0]) && !IsWhite(t[|t| - 1])
    ensures TrimEnd(TrimStart(w1 + t + w2)) == t
  {
    var x := t + w2;
    assert w1 + t + w2 == w1 + x;
    assert x[0] == t[0];
    TrimStartPadded(w1, x);
    TrimEndPadded(t, w2);
  }

  /**
   * The strings `uint.Parse` accepts: white space, an optional sign, the
   * digits `d`, white space; a plus sign or none gives the value of `d` when
   * it fits in 32 bits, a minus sign only a value of zero.
   */
  lemma ParseUIntPadded(w1: string, sign: string, d: string, w2: string)
    requires AllWhite(w1) && AllWhite(w2) && (sign == "" || sign == "+" || sign == "-")
    requires d != [] && AllDigits(d)
    ensures ParseUInt(w1 + sign + d + w2) ==
      if DecimalValue(d) <= UIntMax && (sign != "-" || DecimalValue(d) == 0) then Common.Some(DecimalValue(d))
      else Common.None
  {
    var t := sign + d;
    assert w1 + sign + d + w2 == w1 + t + w2;
    assert t[|t| - 1] == d[|d| - 1] && IsDigit(d[0]);
    assert t[0] == (if sign == "" then d[0] else sign[0]);
    TrimPadded(w1, t, w2);
    ParseSignedDigits(sign, d);
  }

  /** `s` is white space, an optional sign, the digits `d`, and white space. */
  predicate PaddedNumber(s: string, w1: string, sign: string, d: string, w2: string) {
    && s == w1 + sign + d + w2
    && AllWhite(w1) && AllWhite(w2)
    && (sign == "" || sign == "+" || sign == "-")
    && d != [] && AllDigits(d)
  }

  /** Cutting a sequence at three points and joining the pieces gives it back. */
  lemma JoinCuts(s: string, a: nat, b: nat, c: nat)
    requires a <= b <= c <= |s|
    ensures s == s[..a] + s[a..b] + s[b..c] + s[c..]
  {
  }

  /** White space up to `a`, a number ParseSigned reads up to `c`, white space after: the shape above. */
  lemma ShapeAt(s: string, a: nat, c: nat)
    requires a <= c <= |s| && AllWhite(s[..a]) && AllWhite(s[c..]) && ParseSigned(s[a..c]).Some?
    ensures exists w1, sign, d, w2 :: PaddedNumber(s, w1, sign, d, w2)
  {
    var t := s[a..c];
    var b := if t != [] && (t[0] == '+' || t[0] == '-') then a + 1 else a;
    assert s[b..c] == if b == a then t else t[1..];
    JoinCuts(s, a, b, c);
    assert PaddedNumber(s, s[..a], s[a..b], s[b..c], s[c..]);
  }

  /** Conversely, every string `uint.Parse` accepts has that shape. */
  lemma ParseUIntShape(s: string)
    requires ParseUInt(s).Some?
    ensures exists w1, sign, d, w2 :: PaddedNumber(s, w1, sign, d, w2)
  {
    var r1 := TrimStart(s);
    var t := TrimEnd(r1);
    var a := |s| - |r1|;
    var c := a + |t|;
    assert t == s[a..c] && s[c..] == r1[|t|..];
    ShapeAt(s, a, c);
  }

  /** The parser's position: the current scope and the record filled so far. */
  datatype Cursor = Cursor(scope: Scope, info: ManifestInfo)

  /**
   * One turn of the reading loop: a header line switches the scope, then the
   * line is handled in that scope. No value: the line throws (a Substring
   * past the end, or a failed uint.Parse).
   */
  function ParseLine(outputPath: string, c: Cursor, line: string): Common.Option<Cursor> {
    var scope := if GetScope(line) != None then GetScope(line) else c.scope;
    var info := c.info;
    match scope
    case None => Common.Some(Cursor(scope, info))
    case Crc =>
      if |line| < |PrefixOfCrc| then Common.None
      else
        var n := ParseUInt(line[|PrefixOfCrc|..]);
        if n.None? then Common.None else Common.Some(Cursor(scope, info.(crc := n.value)))
    case Hashes =>
      var next :=
        if Common.StartsWith(line, PrefixOfAssetFileHashScope) then AssetFileHash
        else if Common.StartsWith(line, PrefixOfTypeTreeHashScope) then TypeTreeHash
        else Hashes;
      Common.Some(Cursor(next, info))
    case AssetFileHash =>
      if Common.StartsWith(line, PrefixOfHash) then
        Common.Some(Cursor(scope, info.(assetFileHash := Common.ParseHash(line[|PrefixOfHash|..]))))
      else Common.Some(Cursor(scope, info))
    case TypeTreeHash =>
      if Common.StartsWith(line, PrefixOfHash) then
        Common.Some(Cursor(scope, info.(typeTreeHash := Common.ParseHash(line[|PrefixOfHash|..]))))
      else Common.Some(Cursor(scope, info))
    case Assets =>
      if Common.StartsWith(line, PrefixOfListItem) then
        Common.Some(Cursor(scope, info.(assets := info.assets + [line[|PrefixOfListItem|..]])))
      else Common.Some(Cursor(scope, info))
    case Dependencies =>
      if Common.StartsWith(line, PrefixOfListItem) then
        var cut := DependencyCut(outputPath);
        if |line| < cut then Common.None
        else Common.Some(Cursor(scope, info.(dependencies := info.dependencies + [line[cut..]])))
      else Common.Some(Cursor(scope, info))
  }

  /** How many leading characters a dependency item loses: "- ", the output path and a separator. */
  function DependencyCut(outputPath: string): nat {
    |PrefixOfListItem| + |outputPath| + 1
  }

  /**
   * `reader.Peek() > 0` fails: no line is left, or the next one starts with
   * the NUL character (Peek returns its code, 0).
   */
  predicate AtEnd(lines: seq<string>) {
    lines == [] || (|lines[0]| > 0 && lines[0][0] == '\0')
  }

  /** The reading loop from cursor `c` over the remaining lines; no value: an exception. */
  function ParseLines(outputPath: string, c: Cursor, lines: seq<string>): Common.Option<Cursor>
    decreases |lines|
  {
    if AtEnd(lines) then Common.Some(c)
    else
      match ParseLine(outputPath, c, lines[0])
      case None => Common.None
      case Some(c') => ParseLines(outputPath, c', lines[1..])
  }

  /** What TryParse returns for a file: no value when it is unreadable or a line throws. */
  function ParseFile(outputPath: string, file: Common.Option<seq<string>>): Common.Option<ManifestInfo> {
    if file.None? then Common.None
    else
      var r := ParseLines(outputPath, Cursor(None, EmptyManifestInfo), file.value);
      if r.None? then Common.None else Common.Some(r.value.info)
  }

  /**
   * TryParse: read the lines of one manifest file (None: the file could not be
   * opened) into a record; `ok` is false when any exception is raised.
   */
  method TryParse(outputPath: string, file: Common.Option<seq<string>>) returns (ok: bool, info: ManifestInfo)
    ensures ok <==> ParseFile(outputPath, file).Some?
    ensures ok ==> info == ParseFile(outputPath, file).value
  {
    info := EmptyManifestInfo;
    if file.None? {
      return false, info;
    }
    var lines := file.value;
    var scope := None;
    var i := 0;
    while i < |lines| && !(|lines[i]| > 0 && lines[i][0] == '\0')
      invariant 0 <= i <= |lines|
      invariant ParseLines(outputPath, Cursor(None, EmptyManifestInfo), lines)
             == ParseLines(outputPath, Cursor(scope, info), lines[i..])
    {
      var line := lines[i];
      ghost var before := Cursor(scope, info);
      assert lines[i..][0] == line && lines[i..][1..] == lines[i + 1..];
      i := i + 1;
      if GetScope(line) != None {
        scope := GetScope(line);
      }
      match scope {
        case Crc =>
          if |line| < |PrefixOfCrc| {
            return false, info;
          }
          var n := ParseUInt(line[|PrefixOfCrc|..]);
          if n.None? {
            return false, info;
          }
          info := info.(crc := n.value);
        case Hashes =>
          if Common.StartsWith(line, PrefixOfAssetFileHashScope) {
            scope := AssetFileHash;
          } else if Common.StartsWith(line, PrefixOfTypeTreeHashScope) {
            scope := TypeTreeHash;
          }
        case AssetFileHash =>
          if Common.StartsWith(line, PrefixOfHash) {
            info := info.(assetFileHash := Common.ParseHash(line[|PrefixOfHash|..]));
          }
        case TypeTreeHash =>
          if Common.StartsWith(line, PrefixOfHash) {
            info := info.(typeTreeHash := Common.ParseHash(line[|PrefixOfHash|..]));
          }
        case Assets =>
          if Common.StartsWith(line, PrefixOfListItem) {
            info := info.(assets := info.assets + [line[|PrefixOfListItem|..]]);
          }
        case Dependencies =>
          if Common.StartsWith(line, PrefixOfListItem) {
            var cut := |PrefixOfListItem| + |outputPath| + 1;
            if |line| < cut {
              return false, info;
            }
            info := info.(dependencies := info.dependencies + [line[cut..]]);
          }
        case None =>
      }
      assert ParseLine(outputPath, before, line) == Common.Some(Cursor(scope, info));
    }
    assert AtEnd(lines[i..]);
    ok := true;
  }

  // ----- properties of the reading loop -----

  /** No line of `lines` is a header (GetScope gives None). */
  predicate NoHeaders(lines: seq<string>) {
    forall k :: 0 <= k < |lines| ==> GetScope(lines[k]) == None
  }

  /** No line of `lines` starts with NUL, so Peek lets the loop read them all. */
  predicate NoNul(lines: seq<string>) {
    forall k :: 0 <= k < |lines| ==> |lines[k]| == 0 || lines[k][0] != '\0'
  }

  /**
   * The scope changes only on a header line, or in Hashes on an
   * AssetFileHash or TypeTreeHash sub-header.
   */
  lemma ScopeChangesOnlyOnHeaders(outputPath: string, c: Cursor, line: string)
    requires ParseLine(outputPath, c, line).Some?
    ensures var c' := ParseLine(outputPath, c, line).value;
      c'.scope != c.scope ==>
        GetScope(line) != None ||
        (c.scope == Hashes && c'.scope == AssetFileHash && Common.StartsWith(line, PrefixOfAssetFileHashScope)) ||
        (c.scope == Hashes && c'.scope == TypeTreeHash && Common.StartsWith(line, PrefixOfTypeTreeHashScope))
    ensures var c' := ParseLine(outputPath, c, line).value;
      GetScope(line) != None && c'.scope != GetScope(line) ==>
        GetScope(line) == Hashes && (c'.scope == AssetFileHash || c'.scope == TypeTreeHash)
  {
  }

  /**
   * Once in AssetFileHash scope, the TypeTreeHash sub-header is not
   * recognised: the scope stays AssetFileHash and the record is untouched.
   */
  lemma TypeTreeHeaderKeepsAssetFileHashScope(outputPath: string, info: ManifestInfo)
    ensures ParseLine(outputPath, Cursor(AssetFileHash, info), PrefixOfTypeTreeHashScope)
         == Common.Some(Cursor(AssetFileHash, info))
  {
    assert PrefixOfTypeTreeHashScope[..|PrefixOfCrc|][0] == ' ';
    assert PrefixOfTypeTreeHashScope[..|PrefixOfHash|][2] != PrefixOfHash[2];
  }

  /** Line `k` is a "    Hash: " line and no later line is one. */
  predicate LastHashLine(lines: seq<string>, k: int) {
    && 0 <= k < |lines|
    && Common.StartsWith(lines[k], PrefixOfHash)
    && forall j :: k < j < |lines| ==> !Common.StartsWith(lines[j], PrefixOfHash)
  }

  /**
   * In AssetFileHash scope, with no header in the way, every "    Hash: " line
   * overwrites assetFileHash: the last such line decides it, and nothing else
   * in the record changes.
   */
  lemma {:induction false} HashLinesOverwrite(outputPath: string, info: ManifestInfo, lines: seq<string>)
    requires NoHeaders(lines) && NoNul(lines)
    ensures var r := ParseLines(outputPath, Cursor(AssetFileHash, info), lines);
      r.Some?
      && r.value.scope == AssetFileHash
      && r.value.info.(assetFileHash := info.assetFileHash) == info
      && (forall k :: LastHashLine(lines, k) ==>
            r.value.info.assetFileHash == Common.ParseHash(lines[k][|PrefixOfHash|..]))
      && ((forall k :: 0 <= k < |lines| ==> !Common.StartsWith(lines[k], PrefixOfHash)) ==>
            r.value.info.assetFileHash == info.assetFileHash)
    decreases |lines|
  {
    if lines != [] {
      var line := lines[0];
      var c1 := ParseLine(outputPath, Cursor(AssetFileHash, info), line).value;
      var rest := lines[1..];
      assert NoHeaders(rest) && NoNul(rest) by {
        forall k | 0 <= k < |rest| ensures GetScope(rest[k]) == None && (|rest[k]| == 0 || rest[k][0] != '\0') {
          assert rest[k] == lines[k + 1];
        }
      }
      HashLinesOverwrite(outputPath, c1.info, rest);
      var r := ParseLines(outputPath, Cursor(AssetFileHash, info), lines);
      assert r == ParseLines(outputPath, c1, rest);
      forall k | LastHashLine(lines, k)
        ensures r.value.info.assetFileHash == Common.ParseHash(lines[k][|PrefixOfHash|..])
      {
        if k == 0 {
          forall j | 0 <= j < |rest| ensures !Common.StartsWith(rest[j], PrefixOfHash) {
            assert rest[j] == lines[j + 1];
          }
        } else {
          assert rest[k - 1] == lines[k];
          forall j | k - 1 < j < |rest| ensures !Common.StartsWith(rest[j], PrefixOfHash) {
            assert rest[j] == lines[j + 1];
          }
        }
      }
      if forall k :: 0 <= k < |lines| ==> !Common.StartsWith(lines[k], PrefixOfHash) {
        forall j | 0 <= j < |rest| ensures !Common.StartsWith(rest[j], PrefixOfHash) {
          assert rest[j] == lines[j + 1];
        }
      }
    }
  }

  /** The list items of `lines` with their first `cut` characters removed, in file order. */
  function Items(lines: seq<string>, cut: nat): (r: seq<string>)
    requires forall k :: 0 <= k < |lines| && Common.StartsWith(lines[k], PrefixOfListItem) ==> cut <= |lines[k]|
  {
    if lines == [] then []
    else
      (if Common.StartsWith(lines[0], PrefixOfListItem) then [lines[0][cut..]] else [])
      + Items(lines[1..], cut)
  }

  /**
   * In Assets scope, with no header in the way, the "- " items are appended to
   * the asset list in file order with the two-character prefix removed.
   */
  lemma {:induction false} AssetItemsInFileOrder(outputPath: string, info: ManifestInfo, lines: seq<string>)
    requires NoHeaders(lines) && NoNul(lines)
    ensures forall k :: 0 <= k < |lines| && Common.StartsWith(lines[k], PrefixOfListItem) ==> |PrefixOfListItem| <= |lines[k]|
    ensures ParseLines(outputPath, Cursor(Assets, info), lines)
         == Common.Some(Cursor(Assets, info.(assets := info.assets + Items(lines, |PrefixOfListItem|))))
    decreases |lines|
  {
    if lines != [] {
      var rest := lines[1..];
      assert NoHeaders(rest) && NoNul(rest) by {
        forall k | 0 <= k < |rest| ensures GetScope(rest[k]) == None && (|rest[k]| == 0 || rest[k][0] != '\0') {
          assert rest[k] == lines[k + 1];
        }
      }
      assert GetScope(lines[0]) == None && !AtEnd(lines);
      var c1 := ParseLine(outputPath, Cursor(Assets, info), lines[0]).value;
      AssetItemsInFileOrder(outputPath, c1.info, rest);
      var cut := |PrefixOfListItem|;
      assert Items(lines, cut) == (if Common.StartsWith(lines[0], PrefixOfListItem) then [lines[0][cut..]] else []) + Items(rest, cut);
      assert c1.info.assets + Items(rest, cut) == info.assets + Items(lines, cut);
      assert c1 == Cursor(Assets, c1.info);
      assert ParseLines(outputPath, Cursor(Assets, info), lines) == ParseLines(outputPath, c1, rest);
    } else {
      assert info.assets + Items(lines, |PrefixOfListItem|) == info.assets;
    }
  }

  /** Every list item of `lines` is long enough to lose the dependency prefix. */
  predicate DependencyItemsLongEnough(outputPath: string, lines: seq<string>) {
    forall k :: 0 <= k < |lines| && Common.StartsWith(lines[k], PrefixOfListItem) ==> DependencyCut(outputPath) <= |lines[k]|
  }

  /**
   * In Dependencies scope, with no header in the way, parsing fails exactly when
   * some item is shorter than "- " + outputPath + separator; otherwise the items
   * are appended in file order with that many characters removed.
   */
  lemma {:induction false} DependencyItemsStripped(outputPath: string, info: ManifestInfo, lines: seq<string>)
    requires NoHeaders(lines) && NoNul(lines)
    ensures ParseLines(outputPath, Cursor(Dependencies, info), lines).Some? <==> DependencyItemsLongEnough(outputPath, lines)
    ensures DependencyItemsLongEnough(outputPath, lines) ==>
      ParseLines(outputPath, Cursor(Dependencies, info), lines)
      == Common.Some(Cursor(Dependencies, info.(dependencies := info.dependencies + Items(lines, DependencyCut(outputPath)))))
    decreases |lines|
  {
    if lines != [] {
      var rest := lines[1..];
      assert NoHeaders(rest) && NoNul(rest) by {
        forall k | 0 <= k < |rest| ensures GetScope(rest[k]) == None && (|rest[k]| == 0 || rest[k][0] != '\0') {
          assert rest[k] == lines[k + 1];
        }
      }
      var cut := DependencyCut(outputPath);
      assert DependencyItemsLongEnough(outputPath, lines) <==>
        (Common.StartsWith(lines[0], PrefixOfListItem) ==> cut <= |lines[0]|) &&
        DependencyItemsLongEnough(outputPath, rest) by {
        if DependencyItemsLongEnough(outputPath, lines) {
          forall k | 0 <= k < |rest| && Common.StartsWith(rest[k], PrefixOfListItem) ensures cut <= |rest[k]| {
            assert rest[k] == lines[k + 1];
          }
        }
        if (Common.StartsWith(lines[0], PrefixOfListItem) ==> cut <= |lines[0]|) &&
           DependencyItemsLongEnough(outputPath, rest) {
          forall k | 0 <= k < |lines| && Common.StartsWith(lines[k], PrefixOfListItem) ensures cut <= |lines[k]| {
            if k > 0 { assert lines[k] == rest[k - 1]; }
          }
        }
      }
      assert GetScope(lines[0]) == None && !AtEnd(lines);
      var r1 := ParseLine(outputPath, Cursor(Dependencies, info), lines[0]);
      assert r1.None? <==> Common.StartsWith(lines[0], PrefixOfListItem) && |lines[0]| < cut;
      if r1.Some? {
        assert r1.value == Cursor(Dependencies, r1.value.info);
        assert ParseLines(outputPath, Cursor(Dependencies, info), lines) == ParseLines(outputPath, r1.value, rest);
        DependencyItemsStripped(outputPath, r1.value.info, rest);
        if DependencyItemsLongEnough(outputPath, lines) {
          assert Items(lines, cut) == (if Common.StartsWith(lines[0], PrefixOfListItem) then [lines[0][cut..]] else []) + Items(rest, cut);
          assert r1.value.info.dependencies + Items(rest, cut) == info.dependencies + Items(lines, cut);
        }
      }
    } else {
      assert info.dependencies + Items(lines, DependencyCut(outputPath)) == info.dependencies;
    }
  }

  /**
   * While the scope is Crc, a non-header line that is not a number makes the
   * parse throw; the empty line included, as `"".Substring(5)` throws. (A
   * line opening with NUL ends the reading loop instead, as `Peek` sees 0.)
   */
  lemma CrcScopeRejectsNonNumber(outputPath: string, info: ManifestInfo, line: string, rest: seq<string>)
    requires GetScope(line) == None
    requires !AtEnd([line])
    requires |line| < |PrefixOfCrc| || ParseUInt(line[|PrefixOfCrc|..]).None?
    ensures ParseLines(outputPath, Cursor(Crc, info), [line] + rest).None?
  {
    assert ([line] + rest)[0] == line;
  }

  // ----- the constructor: one record per bundle, stopping at the first failure -----

  /** The index of the first bundle whose manifest does not parse (|names| when every one does). */
  function FirstFailure(outputPath: string, names: seq<string>, files: string -> Common.Option<seq<string>>): (k: nat)
    ensures k <= |names|
    ensures forall i :: 0 <= i < k ==> ParseFile(outputPath, files(names[i])).Some?
    ensures k < |names| ==> ParseFile(outputPath, files(names[k])).None?
  {
    if names == [] then 0
    else if ParseFile(outputPath, files(names[0])).None? then 0
    else 1 + FirstFailure(outputPath, names[1..], files)
  }

  /** AssetBundleManifestParser: the manifest records of all bundles of a build. */
  class AssetBundleManifestParser {
    var manifestInfoDictionary: map<string, ManifestInfo>

    /**
     * Parse the manifest of each bundle in turn (`files` gives the lines of a
     * bundle's `.manifest` file, None when it cannot be read) and stop at the
     * first one that fails, keeping only the records parsed before it.
     * The bundle list of a build holds each name once, so `Add` never meets a
     * duplicate key.
     */
    constructor (outputPath: string, bundleNames: seq<string>, files: string -> Common.Option<seq<string>>)
      requires Common.Distinct(bundleNames)
      ensures var k := FirstFailure(outputPath, bundleNames, files);
        (manifestInfoDictionary.Keys == set i | 0 <= i < k :: bundleNames[i]) &&
        forall i :: 0 <= i < k ==>
          manifestInfoDictionary[bundleNames[i]] == ParseFile(outputPath, files(bundleNames[i])).value
    {
      var dict: map<string, ManifestInfo> := map[];
      ghost var k := FirstFailure(outputPath, bundleNames, files);
      var i := 0;
      while i < |bundleNames|
        invariant 0 <= i <= k
        invariant dict.Keys == set j | 0 <= j < i :: bundleNames[j]
        invariant forall j :: 0 <= j < i ==> dict[bundleNames[j]] == ParseFile(outputPath, files(bundleNames[j])).value
      {
        var ok, info := TryParse(outputPath, files(bundleNames[i]));
        if ok {
          assert bundleNames[i] !in dict;
          dict := dict[bundleNames[i] := info];
        } else {
          break;
        }
        i := i + 1;
      }
      manifestInfoDictionary := dict;
    }
  }
}
