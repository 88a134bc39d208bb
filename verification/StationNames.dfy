/** HD Radio station names packed into 64 bits, and the validity rules of program identifiers. */
module StationNames {
  import opened Bytes
  import opened Selectors

  predicate IsUpperAlnum(ch: byte) { ('0' as int <= ch <= '9' as int) || ('A' as int <= ch <= 'Z' as int) }
  predicate IsLower(ch: byte) { 'a' as int <= ch <= 'z' as int }

  /** `isalnum` in the classic locale. */
  predicate IsAlnum(ch: byte) { IsUpperAlnum(ch) || IsLower(ch) }

  function ToUpper(ch: byte): byte { if IsLower(ch) then ch - 32 else ch }

  /** The letters and digits of a name, in upper case. */
  function Alnums(name: seq<byte>): seq<byte> {
    if name == [] then [] else (if IsAlnum(name[0]) then [ToUpper(name[0])] else []) + Alnums(name[1..])
  }

  const MAX_LENGTH := 8

  function FirstEight(s: seq<byte>): seq<byte> { if |s| <= MAX_LENGTH then s else s[..MAX_LENGTH] }

  /** What the packed name should be: the first eight letters and digits, the first one lowest. */
  function ShortName(name: seq<byte>): seq<byte> { FirstEight(Alnums(name)) }

  /** Taking a packed name apart, byte by byte, until nothing is left. */
  function Unpack(value: nat): seq<byte> {
    if value == 0 then [] else [value % 256] + Unpack(value / 256)
  }

  predicate UpperAlnums(s: seq<byte>) { forall i :: 0 <= i < |s| ==> IsUpperAlnum(s[i]) }

  lemma {:induction false} AlnumsAreUpper(name: seq<byte>)
    ensures UpperAlnums(Alnums(name))
  {
    if name != [] {
      AlnumsAreUpper(name[1..]);
    }
  }

  lemma {:induction false} AlnumsOfUpper(s: seq<byte>)
    requires UpperAlnums(s)
    ensures Alnums(s) == s
  {
    if s != [] {
      AlnumsOfUpper(s[1..]);
    }
  }

  lemma {:induction false} UnpackValue(s: seq<byte>)
    requires UpperAlnums(s)
    ensures Unpack(LittleEndianValue(s)) == s
  {
    if s != [] {
      hide LittleEndianValue;
      UnpackValue(s[1..]);
      ValueParts(s);
      assert IsUpperAlnum(s[0]);
      assert s == [s[0]] + s[1..];
    }
  }

  lemma {:induction false} ValueGrows(s: seq<byte>, n: nat)
    requires |s| <= n
    ensures LittleEndianValue(s) < Pow256(n)
  {
    if s != [] {
      ValueGrows(s[1..], n - 1);
    } else if n > 0 {
      ValueGrows(s, n - 1);
    }
  }

  method MakeHdRadioStationName(name: seq<byte>) returns (id: Identifier)
    ensures id.type_ == HD_STATION_NAME
    ensures Unpack(id.value) == ShortName(name)
    ensures id.value == LittleEndianValue(ShortName(name))
  {
    var shortName := Shorten(name);
    AlnumsAreUpper(name);
    UnpackValue(shortName);
    var val := Pack(shortName);
    id := Identifier(HD_STATION_NAME, val);
  }

  method Shorten(name: seq<byte>) returns (shortName: seq<byte>)
    ensures shortName == ShortName(name)
  {
    hide Alnums, IsAlnum, ToUpper;
    shortName := [];
    assert name[0..] == name && [] + Alnums(name) == Alnums(name);
    for i := 0 to |name|
      invariant |shortName| < MAX_LENGTH
      invariant Alnums(name) == shortName + Alnums(name[i..])
    {
      AlnumsFrom(name, i);
      if IsAlnum(name[i]) {
        shortName := shortName + [ToUpper(name[i])];
        if |shortName| >= MAX_LENGTH {
          assert Alnums(name)[..MAX_LENGTH] == shortName;
          return;
        }
      }
    }
    AlnumsOfNothing();
    assert name[|name|..] == [] && Alnums(name) == shortName;
  }

  lemma AlnumsFrom(name: seq<byte>, i: nat)
    requires i < |name|
    ensures Alnums(name[i..]) == (if IsAlnum(name[i]) then [ToUpper(name[i])] else []) + Alnums(name[i + 1..])
  {
    hide IsAlnum, ToUpper;
    assert name[i..][1..] == name[i + 1..];
  }

  lemma AlnumsOfNothing()
    ensures Alnums([]) == []
  {
  }

  /** `val <<= 8; val |= ch` from the last character to the first, in 64 bits. */
  method Pack(shortName: seq<byte>) returns (val: uint64)
    requires |shortName| <= MAX_LENGTH
    ensures val == LittleEndianValue(shortName)
  {
    val := 0;
    for k := |shortName| downto 0
      invariant val == LittleEndianValue(shortName[k..])
    {
      assert shortName[k..][1..] == shortName[k + 1..];
      ShiftKeepsAllBits(shortName, k);
      val := (val * 256) % LIMIT64 + shortName[k];
    }
    assert shortName[0..] == shortName;
  }

  /** Shifting in the next character pushes nothing out of the 64 bits. */
  lemma ShiftKeepsAllBits(s: seq<byte>, k: nat)
    requires k < |s| <= MAX_LENGTH
    ensures LittleEndianValue(s[k + 1..]) * 256 + 255 < LIMIT64
    ensures LittleEndianValue(s[k..]) == LittleEndianValue(s[k + 1..]) * 256 + s[k]
  {
    ValueGrows(s[k + 1..], 7);
    Powers();
    assert Pow256(8) == 256 * Pow256(7);
    assert s[k..][1..] == s[k + 1..];
  }

  /** Packing a name that came out of a packed name gives the same name. */
  lemma RepackIsStable(name: seq<byte>)
    ensures ShortName(ShortName(name)) == ShortName(name)
  {
    AlnumsAreUpper(name);
    AlnumsOfUpper(ShortName(name));
  }

  // ----- the characters themselves

  /** ASCII: digits from 48, capitals from 65, small letters from 97. */
  lemma CharactersExactly(ch: byte)
    ensures IsUpperAlnum(ch) <==> 48 <= ch <= 57 || 65 <= ch <= 90
    ensures IsAlnum(ch) <==> 48 <= ch <= 57 || 65 <= ch <= 90 || 97 <= ch <= 122
    ensures ToUpper(ch) == if 97 <= ch <= 122 then ch - 32 else ch
  {
  }

  /** What one more character adds to the letters and digits: itself, its capital, or nothing. */
  lemma {:induction false} AlnumsAppended(name: seq<byte>, ch: byte)
    ensures Alnums(name + [ch]) == Alnums(name) +
      if 48 <= ch <= 57 || 65 <= ch <= 90 then [ch] else if 97 <= ch <= 122 then [ch - 32] else []
  {
    hide IsAlnum, ToUpper;
    CharactersExactly(ch);
    var all := name + [ch];
    assert all[0..] == all;
    AlnumsFrom(all, 0);
    AlnumsOfNothing();
    if name == [] {
      assert all[1..] == [];
    } else {
      assert name[0..] == name;
      AlnumsFrom(name, 0);
      AlnumsAppended(name[1..], ch);
      assert all[1..] == name[1..] + [ch];
    }
  }

  lemma ShortNameExactly(name: seq<byte>)
    ensures ShortName(name) == if |Alnums(name)| > 8 then Alnums(name)[..8] else Alnums(name)
  {
  }

  // ----- isValid

  predicate ValidName(value: nat) {
    value == 0 || (IsUpperAlnum(value % 256) && ValidName(value / 256))
  }

  /** In kilohertz. */
  predicate ValidFrequency(f: nat) { 100 < f < 10000000 }

  predicate ValidId(id: Identifier) {
    var t, v := id.type_, id.value;
    if t == INVALID then false
    else if t == DAB_FREQUENCY then v > 100000 && ValidFrequency(v)
    else if t == AMFM_FREQUENCY || t == DRMO_FREQUENCY then ValidFrequency(v)
    else if t == RDS_PI then v != 0 && v <= 0xFFFF
    else if t == HD_STATION_ID_EXT then
      v % LIMIT32 != 0 && v / LIMIT32 % 16 < 8 && ValidFrequency(v / 0x10_0000_0000 % 0x4_0000)
    else if t == HD_STATION_NAME then ValidName(v)
    else if t == DAB_SID_EXT then v % 0x1_0000 != 0 && 0xA0 <= v / 0x1_0000 % 256 <= 0xF6
    else if t == DAB_ENSEMBLE then v != 0 && v <= 0xFFFF
    else if t == DAB_SCID then 0xF < v <= 0xFFF
    else if t == DRMO_SERVICE_ID then v != 0 && v <= 0xFF_FFFF
    else if t == SXM_SERVICE_ID then v != 0 && v <= 0xFFFF_FFFF
    else if t == SXM_CHANNEL then v < 1000
    else true // vendor types and numbers without enumerator
  }

  /** The rules by the numbers of the types and decimal bounds, in kilohertz for frequencies. */
  lemma ValidIdExactly(t: nat, v: uint64)
    ensures ValidId(Identifier(t, v)) <==>
      && t != 0
      && (t in {1, 10} ==> 101 <= v <= 9999999)
      && (t in {2, 6} ==> 1 <= v <= 65535)
      && (t == 3 ==> var frequency := v / 0x10_0000_0000 % 262144;
            v % 0x1_0000_0000 != 0 && v / 0x1_0000_0000 % 16 <= 7 && 101 <= frequency <= 9999999)
      && (t == 4 ==> CapitalsAndDigits(Unpack(v)))
      && (t == 5 ==> v % 65536 != 0 && 160 <= v / 65536 % 256 <= 246)
      && (t == 7 ==> 16 <= v <= 4095)
      && (t == 8 ==> 100001 <= v <= 9999999)
      && (t == 9 ==> 1 <= v <= 16777215)
      && (t == 12 ==> 1 <= v <= 4294967295)
      && (t == 13 ==> v <= 999)
  {
    hide Unpack, ValidName;
    ValidNameExactly(v);
  }

  predicate CapitalsAndDigits(s: seq<byte>) {
    forall i :: 0 <= i < |s| ==> 48 <= s[i] <= 57 || 65 <= s[i] <= 90
  }

  lemma {:induction false} ValidNameExactly(v: nat)
    ensures ValidName(v) <==> CapitalsAndDigits(Unpack(v))
  {
    if v != 0 {
      ValidNameExactly(v / 256);
      CharactersExactly(v % 256);
      CapitalsHead(v % 256, Unpack(v / 256));
    }
  }

  lemma CapitalsHead(ch: byte, s: seq<byte>)
    ensures CapitalsAndDigits([ch] + s) <==> (48 <= ch <= 57 || 65 <= ch <= 90) && CapitalsAndDigits(s)
  {
    var all := [ch] + s;
    assert all[0] == ch;
    assert forall i :: 0 <= i < |s| ==> s[i] == all[i + 1];
  }

  predicate ValidSelector(sel: Selector) {
    ValidId(sel.primaryId) && forall i :: 0 <= i < |sel.secondaryIds| ==> ValidId(sel.secondaryIds[i])
  }

  lemma ValidSelectorExactly(sel: Selector)
    ensures ValidSelector(sel) <==> forall id :: id in [sel.primaryId] + sel.secondaryIds ==> ValidId(id)
  {
    hide ValidId;
    var all := [sel.primaryId] + sel.secondaryIds;
    assert all[0] in all && forall i :: 0 <= i < |sel.secondaryIds| ==> sel.secondaryIds[i] == all[i + 1] && all[i + 1] in all;
  }

  /** The packed form of any name whatsoever passes the validity check. */
  lemma PackedNameIsValid(name: seq<byte>)
    ensures LittleEndianValue(ShortName(name)) < LIMIT64
    ensures ValidId(Identifier(HD_STATION_NAME, LittleEndianValue(ShortName(name))))
  {
    AlnumsAreUpper(name);
    ValueGrows(ShortName(name), 8);
    Powers();
    ValueOfUpperIsValid(ShortName(name));
  }

  lemma {:induction false} ValueOfUpperIsValid(s: seq<byte>)
    requires UpperAlnums(s)
    ensures ValidName(LittleEndianValue(s))
  {
    if s != [] {
      ValueOfUpperIsValid(s[1..]);
    }
  }

  /** The loop of the check shifts the value until it is zero, noting any bad character. */
  method CheckName(value: nat) returns (valid: bool)
    ensures valid == ValidName(value)
  {
    valid := true;
    var val := value;
    while val > 0
      invariant ValidName(value) == (valid && ValidName(val))
    {
      var ch := val % 256;
      if !IsUpperAlnum(ch) {
        valid := false;
      }
      val := val / 256;
    }
  }
}
