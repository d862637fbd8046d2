/**
 The binary settings of ikcc_service/src/src/xlinkgateway/Config.c: byte strings kept
 as Base64 text in one section of the key-value file. The file is passed and returned
 as its text.
 */
module ConfigStore {
  import opened Bytes
  import opened IniFile
  import Base64

  /** "config" */
  const SECTION: str := [99, 111, 110, 102, 105, 103]

  /** "1234", what `XDReadBase64Decode` decodes when there is no such key */
  const DEFAULT: str := [49, 50, 51, 52]

  const BUFFER_SIZE: nat := 1024

  function StoreSpec(t: seq<byte>, key: seq<byte>, data: seq<byte>): seq<byte>
    requires NulFree(t)
  {
    WriteSpec(t, SECTION, key, Base64.Encode(data))
  }

  function LoadSpec(t: seq<byte>, key: seq<byte>): seq<byte>
    requires NulFree(t)
  {
    var r := ReadSpec(t, SECTION, key, BUFFER_SIZE);
    Base64.Decode(if r.Value? then r.text else DEFAULT)
  }

  lemma SectionIsName()
    ensures IsSection(SECTION)
  {
  }

  lemma EncodedIsValue(data: seq<byte>)
    ensures IsValue(Base64.Encode(data))
  {
  }

  /** Whatever is stored under a key is loaded again, byte for byte and with its length, whether
      the key, only the section, or neither was there, as long as its encoding fits the buffer. */
  lemma StoreThenLoad(t: seq<byte>, key: seq<byte>, data: seq<byte>)
    requires NulFree(t) && Closed(t) && IsKey(key) && |Base64.Encode(data)| < BUFFER_SIZE
    ensures NulFree(StoreSpec(t, key, data)) && LoadSpec(StoreSpec(t, key, data), key) == data
  {
    ClosedTakesValue(t, SECTION, key);
    StoreThenLoadExactly(t, key, data);
  }

  /** On any file: the data come back where the file takes the value; elsewhere the default does. */
  lemma StoreThenLoadExactly(t: seq<byte>, key: seq<byte>, data: seq<byte>)
    requires NulFree(t) && IsKey(key) && |Base64.Encode(data)| < BUFFER_SIZE
    ensures NulFree(StoreSpec(t, key, data))
    ensures LoadSpec(StoreSpec(t, key, data), key)
         == if TakesValue(t, SECTION, key) then data else Base64.Decode(DEFAULT)
  {
    SectionIsName();
    EncodedIsValue(data);
    WriteThenRead(t, SECTION, key, Base64.Encode(data), BUFFER_SIZE);
    Base64.DecodeEncode(data);
  }

  /** The file `[config` has no closing bracket: a value stored in it is lost. */
  lemma UnclosedHeaderLosesValue(key: seq<byte>, data: seq<byte>)
    requires IsKey(key) && |Base64.Encode(data)| < BUFFER_SIZE
    ensures var t := [LBRACKET] + SECTION;
      && NulFree(t) && !Closed(t) && NulFree(StoreSpec(t, key, data))
      && LoadSpec(StoreSpec(t, key, data), key) == Base64.Decode(DEFAULT)
  {
    var t := [LBRACKET] + SECTION;
    NoBracket(t, 1);
    assert t[1..7] == SECTION == SECTION[..6];
    assert IsHeader(t, 0) && Matches(SECTION, t, 1, 7) && SpacesEnd(t, 8) == 8;
    EntersNew(t, SECTION, key, 0, 7, Nothing);
    assert Lines(t, SECTION, key, 8, Section(1, 8)) == Section(1, 8);
    StoreThenLoadExactly(t, key, data);
  }

  // ---- the C code ----

  /** `XDWriteBase64Encode` */
  method WriteBase64Encode(t: seq<byte>, key: seq<byte>, value: seq<byte>) returns (file: seq<byte>)
    requires IsFileText(t) && key != [] && NulFree(key) && PERCENT !in t
    requires |Base64.Encode(value)| < BUFFER_SIZE
    requires |t| + |SECTION| + |key| + |Base64.Encode(value)| + 6 < MAX_FILE_SIZE
    ensures file == StoreSpec(t, key, value)
  {
    var temp := new byte[BUFFER_SIZE](_ => NUL);
    Base64.Base64Encode(value, temp);
    EncodedIsValue(value);
    var text := FPuts(temp, Base64.Encode(value));
    file := WriteProfileString(t, SECTION, key, text);
  }

  /** `XDReadBase64Decode` */
  method ReadBase64Decode(t: seq<byte>, key: seq<byte>, value: array<byte>) returns (ret: nat)
    requires IsFileText(t) && key != [] && |LoadSpec(t, key)| <= value.Length
    modifies value
    ensures ret == |LoadSpec(t, key)| && value[..ret] == LoadSpec(t, key)
  {
    var buffer := new byte[BUFFER_SIZE](_ => NUL);
    var found := ReadProfileString(t, SECTION, key, buffer, DEFAULT);
    ghost var r := ReadSpec(t, SECTION, key, BUFFER_SIZE);
    ReadNulFree(t, SECTION, key, BUFFER_SIZE);
    var text := FPuts(buffer, if r.Value? then r.text else DEFAULT);
    ret := Base64.Base64Decode(text, value);
  }

  lemma ReadNulFree(t: seq<byte>, section: seq<byte>, key: seq<byte>, size: nat)
    requires NulFree(t) && size > 0
    ensures var r := ReadSpec(t, section, key, size); r.Value? ==> NulFree(r.text)
  {
    ScanBounds(t, section, key, 0, Nothing);
  }
}
