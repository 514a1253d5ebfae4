/** The performance page's log-folder catalogue: percent-decoding, the
    fixed-field classification of folder names, the scan that keeps the
    folders that classify, and the cascading sidebar filters over them. */
module Folders {
  import opened Text
  import opened Seqs

  // ---------------------------------------------------------------------------
  // Percent-decoding

  predicate IsHex(c: char) {
    '0' <= c <= '9' || 'a' <= c <= 'f' || 'A' <= c <= 'F'
  }

  function HexValue(c: char): (v: nat)
    requires IsHex(c)
    ensures v < 16
  {
    if '0' <= c <= '9' then c as int - '0' as int
    else if 'a' <= c <= 'f' then c as int - 'a' as int + 10
    else c as int - 'A' as int + 10
  }

  /** The upper-case hexadecimal digit for `v`. */
  function HexDigit(v: nat): (c: char)
    requires v < 16
    ensures IsHex(c) && HexValue(c) == v
  {
    if v < 10 then ('0' as int + v) as char else ('A' as int + v - 10) as char
  }

  /** `urllib.parse.unquote`: every "%" followed by two hexadecimal digits
      becomes the character with that code; anything else is copied. */
  function Unquote(s: string): (r: string)
    ensures |r| <= |s|
    decreases |s|
  {
    if s == [] then []
    else if |s| >= 3 && s[0] == '%' && IsHex(s[1]) && IsHex(s[2]) then
      [(16 * HexValue(s[1]) + HexValue(s[2])) as char] + Unquote(s[3..])
    else [s[0]] + Unquote(s[1..])
  }

  /** Text without a "%" is left as it is. */
  lemma {:induction false} UnquotePlain(s: string)
    requires '%' !in s
    ensures Unquote(s) == s
    decreases |s|
  {
    if s != [] {
      assert s[0] != '%';
      UnquotePlain(s[1..]);
    }
  }

  predicate Unreserved(c: char) {
    ('A' <= c <= 'Z') || ('a' <= c <= 'z') || ('0' <= c <= '9') || c == '_' || c == '.' || c == '-' || c == '~'
  }

  /** A percent-encoding of one character: letters, digits, "_.-~" and
      characters beyond code 255 stay, everything else becomes "%XY" with
      the character's own code (a Latin-1 byte). This is the model's own
      encoder, the inverse of the per-character decoding; Python's `quote`
      encodes codes 128-255 as two UTF-8 bytes instead. */
  function Escape(c: char): string {
    if Unreserved(c) || c as int >= 256 then [c]
    else ['%', HexDigit(c as int / 16), HexDigit(c as int % 16)]
  }

  function Quote(s: string): string {
    if s == [] then [] else Escape(s[0]) + Quote(s[1..])
  }

  lemma UnquoteEscape(c: char, rest: string)
    ensures Unquote(Escape(c) + rest) == [c] + Unquote(rest)
  {
    var s := Escape(c) + rest;
    if Unreserved(c) || c as int >= 256 {
      assert s[0] == c && s[1..] == rest;
    } else {
      assert s[0] == '%' && s[1] == HexDigit(c as int / 16) && s[2] == HexDigit(c as int % 16);
      assert s[3..] == rest;
      assert (16 * (c as int / 16) + c as int % 16) as char == c;
    }
  }

  /** Decoding undoes the model's per-character encoding (Quote above, not
      Python's UTF-8 `quote`). */
  lemma {:induction false} UnquoteQuote(s: string)
    ensures Unquote(Quote(s)) == s
  {
    if s != [] {
      UnquoteEscape(s[0], Quote(s[1..]));
      UnquoteQuote(s[1..]);
      assert s == [s[0]] + s[1..];
    }
  }

  /** Text without a "%" in front of the rest passes through unchanged. */
  lemma {:induction false} UnquotePlainPrefix(a: string, rest: string)
    requires '%' !in a
    ensures Unquote(a + rest) == a + Unquote(rest)
    decreases |a|
  {
    if a != [] {
      var s := a + rest;
      assert s[0] == a[0] && s[0] != '%';
      assert s[1..] == a[1..] + rest;
      UnquotePlainPrefix(a[1..], rest);
      assert [a[0]] + (a[1..] + Unquote(rest)) == a + Unquote(rest);
    } else {
      assert a + rest == rest;
    }
  }

  /** "%20" decodes to a space: "Stage%201" is shown as "Stage 1". */
  lemma UnquoteSpace(a: string, b: string)
    requires '%' !in a && '%' !in b
    ensures Unquote(a + "%20" + b) == a + " " + b
  {
    var t := "%20" + b;
    assert a + "%20" + b == a + t;
    UnquotePlainPrefix(a, t);
    assert t[0] == '%' && IsHex(t[1]) && IsHex(t[2]) && t[3..] == b;
    assert (16 * HexValue(t[1]) + HexValue(t[2])) as char == ' ';
    UnquotePlain(b);
    assert Unquote(t) == " " + b;
  }

  // ---------------------------------------------------------------------------
  // Folder names

  /** The position of the first "_" in `s`, or |s|. */
  function UnderscoreAt(s: string): (k: nat)
    ensures k <= |s| && (k < |s| ==> s[k] == '_') && '_' !in s[..k]
  {
    if s == [] || s[0] == '_' then 0
    else
      var k := 1 + UnderscoreAt(s[1..]);
      assert s[..k] == [s[0]] + s[1..][..k - 1];
      k
  }

  /** The position of the first "/" in `s`, or |s|. */
  function SlashAt(s: string): (k: nat)
    ensures k <= |s| && (k < |s| ==> s[k] == '/') && '/' !in s[..k]
  {
    if s == [] || s[0] == '/' then 0
    else
      var k := 1 + SlashAt(s[1..]);
      assert s[..k] == [s[0]] + s[1..][..k - 1];
      k
  }

  function Join(field: string, rest: string): string {
    field + "_" + rest
  }

  /** `([^_]+)_`: a non-empty field without "_" and the text after its
      terminating "_". */
  function TakeField(s: string): (r: Option<(string, string)>)
    ensures r.Some? ==> r.value.0 != [] && '_' !in r.value.0 && s == Join(r.value.0, r.value.1)
  {
    var k := UnderscoreAt(s);
    if k == 0 || k == |s| then None
    else
      assert s == s[..k] + "_" + s[k + 1..];
      Some((s[..k], s[k + 1..]))
  }

  lemma TakeFieldOf(field: string, rest: string)
    requires field != [] && '_' !in field
    ensures TakeField(Join(field, rest)) == Some((field, rest))
  {
    var s := Join(field, rest);
    assert s[..|field|] == field && s[|field|] == '_' && s[|field| + 1..] == rest;
    assert forall i :: 0 <= i < |field| ==> s[i] == field[i] && s[i] != '_';
  }

  /** `fields[0] + "_" + fields[1] + "_" + ... + "_" + tail`. */
  function JoinAll(fields: seq<string>, tail: string): string {
    if fields == [] then tail else Join(fields[0], JoinAll(fields[1..], tail))
  }

  predicate PlainField(f: string) {
    f != [] && '_' !in f
  }

  /** `n` consecutive `([^_]+)_` groups and the text after the last one. */
  function TakeFields(s: string, n: nat): (r: Option<(seq<string>, string)>)
    ensures r.Some? ==> (|r.value.0| == n && (forall i :: 0 <= i < n ==> PlainField(r.value.0[i]))
      && s == JoinAll(r.value.0, r.value.1))
  {
    if n == 0 then Some(([], s))
    else
      var first :- TakeField(s);
      var more :- TakeFields(first.1, n - 1);
      assert ([first.0] + more.0)[1..] == more.0;
      Some(([first.0] + more.0, more.1))
  }

  lemma {:induction false} TakeFieldsOf(fields: seq<string>, tail: string)
    requires forall i :: 0 <= i < |fields| ==> PlainField(fields[i])
    ensures TakeFields(JoinAll(fields, tail), |fields|) == Some((fields, tail))
  {
    if fields != [] {
      TakeFieldOf(fields[0], JoinAll(fields[1..], tail));
      TakeFieldsOf(fields[1..], tail);
      assert [fields[0]] + fields[1..] == fields;
    }
  }

  /** The named groups of a classified folder; tuning and acceleration mode
      are stored decoded. */
  datatype Fields = Fields(manufacturer: string, model: string, variant: string,
                           modelYear: string, battery: string, frontMotor: string,
                           rearMotor: string, tuning: string, accelerationMode: string)

  /** The nine groups as they appear in a folder name, still encoded: the
      eight "_"-terminated fields and the last group. */
  datatype RawName = RawName(fields: seq<string>, accelerationMode: string)

  /** What the pattern demands of the groups: eight non-empty fields without
      "_", the fourth (the model year) all digits, and a non-empty last group
      without "/". */
  predicate WellFormedName(n: RawName) {
    && |n.fields| == 8
    && (forall i :: 0 <= i < 8 ==> PlainField(n.fields[i]))
    && AllDigits(n.fields[3])
    && n.accelerationMode != [] && '/' !in n.accelerationMode
  }

  /** The folder name the groups spell, followed by `rest`. */
  function Spell(n: RawName, rest: string): string {
    JoinAll(n.fields, n.accelerationMode + rest)
  }

  function Decode(n: RawName): Fields
    requires |n.fields| == 8
  {
    var f := n.fields;
    Fields(f[0], f[1], f[2], f[3], f[4], f[5], f[6], Unquote(f[7]), Unquote(n.accelerationMode))
  }

  /** `classify_folder`: the pattern matched at the start of the name (the
      match need not reach the end), the tuning and acceleration-mode groups
      decoded; None when the name does not match. */
  function Classify(name: string): Option<Fields> {
    var groups :- TakeFields(name, 8);
    var tail := groups.1;
    var mode := tail[..SlashAt(tail)];
    if !AllDigits(groups.0[3]) || mode == [] then None
    else Some(Decode(RawName(groups.0, mode)))
  }

  /** A last group followed by nothing or by "/..." ends where the slash is. */
  lemma SlashAtMode(mode: string, rest: string)
    requires '/' !in mode && (rest == [] || rest[0] == '/')
    ensures SlashAt(mode + rest) == |mode|
    ensures (mode + rest)[..|mode|] == mode
  {
    var s := mode + rest;
    assert s[..|mode|] == mode;
    assert forall i :: 0 <= i < |mode| ==> s[i] == mode[i] && s[i] != '/';
  }

  /** Every well-formed name classifies, whatever follows a "/" after it. */
  lemma ClassifySpelled(n: RawName, rest: string)
    requires WellFormedName(n) && (rest == [] || rest[0] == '/')
    ensures Classify(Spell(n, rest)) == Some(Decode(n))
  {
    TakeFieldsOf(n.fields, n.accelerationMode + rest);
    SlashAtMode(n.accelerationMode, rest);
  }

  /** Every name that classifies is a well-formed name followed by nothing
      or by "/...", and its classification decodes those groups. */
  lemma ClassifySound(name: string)
    requires Classify(name).Some?
    ensures exists n: RawName, rest: string ::
      && WellFormedName(n) && (rest == [] || rest[0] == '/')
      && name == Spell(n, rest) && Classify(name) == Some(Decode(n))
  {
    var groups := TakeFields(name, 8).value;
    var tail := groups.1;
    var k := SlashAt(tail);
    var n := RawName(groups.0, tail[..k]);
    var rest := tail[k..];
    assert tail == n.accelerationMode + rest;
    assert name == Spell(n, rest);
  }

  /** A model year that is not all digits does not match, whatever the
      other groups are. */
  lemma ClassifyRejectsYear(n: RawName, rest: string)
    requires |n.fields| == 8 && forall i :: 0 <= i < 8 ==> PlainField(n.fields[i])
    requires !AllDigits(n.fields[3])
    ensures Classify(Spell(n, rest)) == None
  {
    TakeFieldsOf(n.fields, n.accelerationMode + rest);
  }

  // ---------------------------------------------------------------------------
  // The catalogue

  /** A classified folder with the URL of its listing. */
  datatype Folder = Folder(info: Fields, path: string)

  /** The value stored under a key of the folder's dictionary. */
  function Field(f: Folder, key: string): Option<string> {
    if key == "manufacturer" then Some(f.info.manufacturer)
    else if key == "model" then Some(f.info.model)
    else if key == "variant" then Some(f.info.variant)
    else if key == "model_year" then Some(f.info.modelYear)
    else if key == "battery" then Some(f.info.battery)
    else if key == "front_motor" then Some(f.info.frontMotor)
    else if key == "rear_motor" then Some(f.info.rearMotor)
    else if key == "tuning" then Some(f.info.tuning)
    else if key == "acceleration_mode" then Some(f.info.accelerationMode)
    else if key == "path" then Some(f.path)
    else None
  }

  /** One directory link: the name with its slashes stripped is classified
      and the folder's URL is the link resolved against the base. */
  function ClassifyLink(base: string, href: string): (r: Option<Folder>)
    ensures r.Some? <==> Classify(StripBy(href, c => c == '/')).Some?
    ensures r.Some? ==> r.value.path == base + href && Some(r.value.info) == Classify(StripBy(href, c => c == '/'))
  {
    match Classify(StripBy(href, c => c == '/'))
    case None => None
    case Some(info) => Some(Folder(info, base + href))
  }

  /** The classified folders of a listing, in link order. */
  function Classified(base: string, hrefs: seq<string>): (r: seq<Folder>)
    ensures |r| <= |hrefs|
  {
    if hrefs == [] then []
    else
      var last := ClassifyLink(base, hrefs[|hrefs| - 1]);
      Classified(base, hrefs[..|hrefs| - 1]) + (if last.Some? then [last.value] else [])
  }

  /** A folder is listed exactly when some link classifies to it. */
  lemma {:induction false} ClassifiedMembers(base: string, hrefs: seq<string>)
    ensures forall f :: f in Classified(base, hrefs) <==> exists h :: h in hrefs && ClassifyLink(base, h) == Some(f)
  {
    if hrefs != [] {
      var init := hrefs[..|hrefs| - 1];
      ClassifiedMembers(base, init);
      assert forall h :: h in hrefs <==> h in init || h == hrefs[|hrefs| - 1] by {
        assert hrefs == init + [hrefs[|hrefs| - 1]];
      }
    }
  }

  /** `scan_and_classify_folders` after the directory listing is fetched. */
  method ScanAndClassify(base: string, hrefs: seq<string>) returns (folders: seq<Folder>)
    ensures folders == Classified(base, hrefs)
  {
    folders := [];
    for i := 0 to |hrefs|
      invariant folders == Classified(base, hrefs[..i])
    {
      assert hrefs[..i + 1][..i] == hrefs[..i];
      var classification := ClassifyLink(base, hrefs[i]);
      if classification.Some? {
        folders := folders + [classification.value];
      }
    }
    assert hrefs[..|hrefs|] == hrefs;
  }

  /** A folder passes the selections when every selection whose key it
      carries contains its value. */
  predicate Matches(f: Folder, filters: map<string, seq<string>>) {
    forall k :: k in filters && Field(f, k).Some? ==> Field(f, k).value in filters[k]
  }

  /** The folders the sidebar selections keep, in catalogue order. */
  function FilterFolders(folders: seq<Folder>, filters: map<string, seq<string>>): (r: seq<Folder>)
    ensures forall f :: f in r <==> f in folders && Matches(f, filters)
    ensures |r| <= |folders|
  {
    Filter(folders, f => Matches(f, filters))
  }

  /** Without selections every folder is kept. */
  lemma NoFiltersKeepAll(folders: seq<Folder>)
    ensures FilterFolders(folders, map[]) == folders
  {
    FilterKeepsAll(folders, f => Matches(f, map[]));
  }

  /** `get_unique_values`: the distinct values under `key` of the folders
      that pass the selections, in ascending order. The set the page
      collects and its final sort are kept as one ascending list. */
  method UniqueValues(folders: seq<Folder>, key: string, filters: map<string, seq<string>>)
    returns (values: seq<string>)
    ensures StrictlySorted(values)
    ensures forall v :: v in values <==>
      exists f :: f in folders && Matches(f, filters) && Field(f, key) == Some(v)
  {
    values := [];
    for i := 0 to |folders|
      invariant StrictlySorted(values)
      invariant forall v :: v in values <==>
        exists j :: 0 <= j < i && Matches(folders[j], filters) && Field(folders[j], key) == Some(v)
    {
      var f := folders[i];
      if Matches(f, filters) && Field(f, key).Some? {
        values := Insert(values, Field(f, key).value);
      }
    }
    forall v ensures (exists f :: f in folders && Matches(f, filters) && Field(f, key) == Some(v)) ==>
                     exists j :: 0 <= j < |folders| && Matches(folders[j], filters) && Field(folders[j], key) == Some(v) {
      if exists f :: f in folders && Matches(f, filters) && Field(f, key) == Some(v) {
        var f :| f in folders && Matches(f, filters) && Field(f, key) == Some(v);
        var j :| 0 <= j < |folders| && folders[j] == f;
      }
    }
  }
}
