/** Paths of places that are not directories (`src/fs/explorer.rs`): the trash,
    network hosts and portable objects, with their ids written in hexadecimal. */
module VirtualPaths {
  import opened Prelude
  import opened Texts

  type Byte = x: int | 0 <= x < 256

  /** The normal components of a path. */
  type VirtualPath = seq<string>

  const VIRTUAL_ROOT := "__bexplorer_virtual__"
  const VIRTUAL_TRASH := "trash"
  const VIRTUAL_NETWORK := "network"
  const VIRTUAL_PORTABLE := "portable"
  const WPD_ROOT_OBJECT_ID := "DEVICE"

  // ----- UTF-8 -----

  function EncodeChar(c: char): (bytes: seq<Byte>)
    ensures 1 <= |bytes| <= 4
  {
    var n := c as int;
    if n < 0x80 then [n]
    else if n < 0x800 then [0xC0 + n / 64, 0x80 + n % 64]
    else if n < 0x1_0000 then [0xE0 + n / 4096, 0x80 + n / 64 % 64, 0x80 + n % 64]
    else [0xF0 + n / 262144, 0x80 + n / 4096 % 64, 0x80 + n / 64 % 64, 0x80 + n % 64]
  }

  function Utf8(text: string): seq<Byte> {
    if text == [] then [] else EncodeChar(text[0]) + Utf8(text[1..])
  }

  predicate Continues(bytes: seq<Byte>, count: nat) {
    count < |bytes| && forall i :: 1 <= i <= count ==> 0x80 <= bytes[i] < 0xC0
  }

  predicate IsScalar(n: int) {
    0 <= n < 0xD800 || 0xE000 <= n < 0x11_0000
  }

  /** The first character and how many bytes it takes; overlong forms and
      surrogates are malformed. */
  function DecodeChar(bytes: seq<Byte>): (decoded: Option<(char, nat)>)
    requires bytes != []
    ensures decoded.Some? ==> 1 <= decoded.value.1 <= |bytes|
  {
    var b: int := bytes[0];
    if b < 0x80 then Some((b as char, 1))
    else if 0xC0 <= b < 0xE0 && Continues(bytes, 1) then
      var n := (b - 0xC0) * 64 + Low(bytes[1]);
      if n >= 0x80 then Some((n as char, 2)) else None
    else if 0xE0 <= b < 0xF0 && Continues(bytes, 2) then
      var n := (b - 0xE0) * 4096 + Low(bytes[1]) * 64 + Low(bytes[2]);
      if n >= 0x800 && IsScalar(n) then Some((n as char, 3)) else None
    else if 0xF0 <= b < 0xF8 && Continues(bytes, 3) then
      var n := (b - 0xF0) * 262144 + Low(bytes[1]) * 4096 + Low(bytes[2]) * 64 + Low(bytes[3]);
      if n >= 0x1_0000 && IsScalar(n) then Some((n as char, 4)) else None
    else None
  }

  /** The six bits that a continuation byte adds. */
  function Low(b: int): (bits: int)
    requires 0x80 <= b < 0xC0
    ensures 0 <= bits < 64
  {
    b - 0x80
  }

  function FromUtf8(bytes: seq<Byte>): Option<string> {
    if bytes == [] then Some([])
    else
      var first := DecodeChar(bytes);
      if first.None? then None
      else
        var rest := FromUtf8(bytes[first.value.1..]);
        if rest.None? then None else Some([first.value.0] + rest.value)
  }

  lemma CharRoundTrip(c: char, rest: seq<Byte>)
    ensures DecodeChar(EncodeChar(c) + rest) == Some((c, |EncodeChar(c)|))
  {
    var n := c as int;
    if n < 0x80 {
    } else if n < 0x800 {
      TwoBytes(c, rest);
    } else if n < 0x1_0000 {
      ThreeBytes(c, rest);
    } else {
      FourBytes(c, rest);
    }
  }

  lemma TwoBytes(c: char, rest: seq<Byte>)
    requires 0x80 <= c as int < 0x800
    ensures DecodeChar(EncodeChar(c) + rest) == Some((c, 2))
  {
    var n, bytes := c as int, EncodeChar(c) + rest;
    assert bytes[0] == 0xC0 + n / 64 && bytes[1] == 0x80 + n % 64;
    assert Continues(bytes, 1);
    assert n / 64 * 64 + n % 64 == n;
  }

  lemma ThreeBytes(c: char, rest: seq<Byte>)
    requires 0x800 <= c as int < 0x1_0000
    ensures DecodeChar(EncodeChar(c) + rest) == Some((c, 3))
  {
    var n, bytes := c as int, EncodeChar(c) + rest;
    var n1 := n / 64;
    assert n1 / 64 == n / 4096;
    assert bytes[0] == 0xE0 + n1 / 64 && bytes[1] == 0x80 + n1 % 64 && bytes[2] == 0x80 + n % 64;
    assert Continues(bytes, 2);
    assert n1 / 64 * 64 + n1 % 64 == n1 && n1 * 64 + n % 64 == n;
    CharIsScalar(c);
  }

  lemma FourBytes(c: char, rest: seq<Byte>)
    requires 0x1_0000 <= c as int
    ensures DecodeChar(EncodeChar(c) + rest) == Some((c, 4))
  {
    var n, bytes := c as int, EncodeChar(c) + rest;
    CharIsScalar(c);
    var n1 := n / 64;
    var n2 := n1 / 64;
    assert n2 == n / 4096 && n2 / 64 == n / 262144;
    assert bytes[0] == 0xF0 + n2 / 64 && bytes[1] == 0x80 + n2 % 64;
    assert bytes[2] == 0x80 + n1 % 64 && bytes[3] == 0x80 + n % 64;
    assert Continues(bytes, 3);
    assert n2 / 64 * 64 + n2 % 64 == n2 && n2 * 64 + n1 % 64 == n1 && n1 * 64 + n % 64 == n;
  }

  lemma CharIsScalar(c: char)
    ensures IsScalar(c as int)
  {
  }

  lemma {:induction false} Utf8RoundTrip(text: string)
    ensures FromUtf8(Utf8(text)) == Some(text)
  {
    if text != [] {
      var rest := Utf8(text[1..]);
      CharRoundTrip(text[0], rest);
      Utf8RoundTrip(text[1..]);
      assert (EncodeChar(text[0]) + rest)[|EncodeChar(text[0])|..] == rest;
      assert text == [text[0]] + text[1..];
    }
  }

  // ----- Hexadecimal -----

  function HexDigit(value: int): char
    requires 0 <= value < 16
  {
    "0123456789abcdef"[value]
  }

  function HexEncodeBytes(bytes: seq<Byte>): (digits: string)
    ensures |digits| == 2 * |bytes|
    ensures forall i :: 0 <= i < |digits| ==> digits[i] in "0123456789abcdef"
  {
    if bytes == [] then []
    else [HexDigit(bytes[0] / 16), HexDigit(bytes[0] % 16)] + HexEncodeBytes(bytes[1..])
  }

  function HexEncode(text: string): string {
    HexEncodeBytes(Utf8(text))
  }

  function HexValue(digit: char): (value: Option<int>)
    ensures value.Some? ==> 0 <= value.value < 16
  {
    if '0' <= digit <= '9' then Some(digit as int - '0' as int)
    else if 'a' <= digit <= 'f' then Some(digit as int - 'a' as int + 10)
    else if 'A' <= digit <= 'F' then Some(digit as int - 'A' as int + 10)
    else None
  }

  function HexDecodeBytes(digits: string): Option<seq<Byte>> {
    if digits == [] then Some([])
    else if |digits| == 1 then None
    else
      var high, low := HexValue(digits[0]), HexValue(digits[1]);
      var rest := HexDecodeBytes(digits[2..]);
      if high.None? || low.None? || rest.None? then None
      else Some([(high.value * 16 + low.value) as Byte] + rest.value)
  }

  function HexDecode(digits: string): Option<string> {
    var bytes := HexDecodeBytes(digits);
    if bytes.None? then None else FromUtf8(bytes.value)
  }

  lemma DigitRoundTrip(value: int)
    requires 0 <= value < 16
    ensures HexValue(HexDigit(value)) == Some(value)
  {
  }

  lemma PairDecodes(high: int, low: int, rest: string)
    requires 0 <= high < 16 && 0 <= low < 16 && HexDecodeBytes(rest).Some?
    ensures HexDecodeBytes([HexDigit(high), HexDigit(low)] + rest) ==
              Some([(high * 16 + low) as Byte] + HexDecodeBytes(rest).value)
  {
    hide HexValue, HexDigit;
    DigitRoundTrip(high);
    DigitRoundTrip(low);
    var digits := [HexDigit(high), HexDigit(low)] + rest;
    assert digits[0] == HexDigit(high) && digits[1] == HexDigit(low) && digits[2..] == rest;
  }

  lemma {:induction false} HexBytesRoundTrip(bytes: seq<Byte>)
    ensures HexDecodeBytes(HexEncodeBytes(bytes)) == Some(bytes)
  {
    if bytes != [] {
      hide HexValue, HexDigit, HexDecodeBytes;
      HexBytesRoundTrip(bytes[1..]);
      PairDecodes(bytes[0] / 16, bytes[0] % 16, HexEncodeBytes(bytes[1..]));
      assert bytes[0] / 16 * 16 + bytes[0] % 16 == bytes[0];
      assert bytes == [bytes[0]] + bytes[1..];
    }
  }

  lemma HexRoundTrip(text: string)
    ensures HexDecode(HexEncode(text)) == Some(text)
  {
    HexBytesRoundTrip(Utf8(text));
    Utf8RoundTrip(text);
  }

  // ----- Segments -----

  function EncodedSegment(id: string, caption: string): (segment: string)
    ensures segment != []
  {
    HexEncode(id) + "~" + HexEncode(caption)
  }

  function IndexOfTilde(segment: string): (at: Option<nat>)
    ensures at.Some? ==> at.value < |segment| && segment[at.value] == '~' && '~' !in segment[..at.value]
    ensures at.None? ==> '~' !in segment
  {
    if segment == [] then None
    else if segment[0] == '~' then Some(0)
    else
      var at := IndexOfTilde(segment[1..]);
      if at.Some? then
        assert segment[..at.value + 1] == [segment[0]] + segment[1..][..at.value];
        Some(at.value + 1)
      else None
  }

  function SegmentId(segment: string): Option<string> {
    var at := IndexOfTilde(segment);
    HexDecode(if at.Some? then segment[..at.value] else segment)
  }

  function SegmentLabel(segment: string): Option<string> {
    var at := IndexOfTilde(segment);
    if at.None? then None
    else
      var caption := HexDecode(segment[at.value + 1..]);
      if caption.Some? && !IsBlank(caption.value) then caption else None
  }

  lemma {:induction false} TildeIsFirst(front: string, back: string)
    requires '~' !in front
    ensures IndexOfTilde(front + "~" + back) == Some(|front|)
  {
    var segment := front + "~" + back;
    if front != [] {
      assert segment[0] == front[0] && segment[1..] == front[1..] + "~" + back;
      TildeIsFirst(front[1..], back);
    } else {
      assert segment[0] == '~';
    }
  }

  lemma SegmentRoundTrip(id: string, caption: string)
    ensures SegmentId(EncodedSegment(id, caption)) == Some(id)
    ensures SegmentLabel(EncodedSegment(id, caption)) == if IsBlank(caption) then None else Some(caption)
  {
    hide HexEncode, HexDecode, IndexOfTilde, IsBlank;
    NoTilde(id);
    TildeIsFirst(HexEncode(id), HexEncode(caption));
    var segment, n := EncodedSegment(id, caption), |HexEncode(id)|;
    assert segment[..n] == HexEncode(id);
    assert segment[n + 1..] == HexEncode(caption);
    HexRoundTrip(id);
    HexRoundTrip(caption);
  }

  // ----- Locations -----

  datatype Location =
    | TrashRoot
    | TrashItem
    | NetworkRoot
    | NetworkHost(host: string)
    | PortableObject(deviceId: string, objectId: string)

  /** `Path::join` with a relative segment; an empty one adds no component. */
  function Join(path: VirtualPath, segment: string): VirtualPath {
    if segment == [] then path else path + [segment]
  }

  function TrashRootPath(): VirtualPath {
    [VIRTUAL_ROOT, VIRTUAL_TRASH]
  }

  function TrashItemPath(id: seq<Byte>): VirtualPath {
    Join(TrashRootPath(), HexEncodeBytes(id))
  }

  function NetworkHostPath(host: string): VirtualPath {
    Join([VIRTUAL_ROOT, VIRTUAL_NETWORK], EncodedSegment(host, host))
  }

  function PortableDevicePath(deviceId: string, name: string): VirtualPath {
    Join([VIRTUAL_ROOT, VIRTUAL_PORTABLE], EncodedSegment(deviceId, name))
  }

  /** An object below others: one segment for each step down. */
  function ObjectPath(device: VirtualPath, steps: seq<(string, string)>): (path: VirtualPath)
    ensures |path| == |device| + |steps| && device <= path
  {
    if steps == [] then device
    else
      var last := steps[|steps| - 1];
      Join(ObjectPath(device, steps[..|steps| - 1]), EncodedSegment(last.0, last.1))
  }

  datatype Area = Trash | Network | Portable | Elsewhere

  function AreaOf(path: VirtualPath): (area: Area)
    ensures area != Elsewhere ==> |path| >= 2
  {
    if |path| < 2 || path[0] != VIRTUAL_ROOT then Elsewhere
    else if path[1] == VIRTUAL_TRASH then Trash
    else if path[1] == VIRTUAL_NETWORK then Network
    else if path[1] == VIRTUAL_PORTABLE then Portable
    else Elsewhere
  }

  function VirtualLocation(path: VirtualPath): Option<Location> {
    match AreaOf(path)
    case Trash =>
      if |path| == 2 then Some(TrashRoot) else if |path| == 3 then Some(TrashItem) else None
    case Network =>
      if |path| == 2 then Some(NetworkRoot)
      else
        var host := SegmentId(path[2]);
        if host.Some? then Some(NetworkHost(host.value)) else None
    case Portable =>
      var deviceId := if |path| >= 3 then SegmentId(path[2]) else None;
      if deviceId.None? then None
      else
        var objectId := if |path| > 3 then SegmentId(path[|path| - 1]) else None;
        Some(PortableObject(deviceId.value, if objectId.Some? then objectId.value else WPD_ROOT_OBJECT_ID))
    case Elsewhere => None
  }

  lemma AreasOfPlaces(path: VirtualPath, area: string)
    requires |path| >= 2 && path[0] == VIRTUAL_ROOT && path[1] == area
    ensures area == VIRTUAL_TRASH ==> AreaOf(path) == Trash
    ensures area == VIRTUAL_NETWORK ==> AreaOf(path) == Network
    ensures area == VIRTUAL_PORTABLE ==> AreaOf(path) == Portable
  {
    assert VIRTUAL_TRASH[0] == 't' && VIRTUAL_NETWORK[0] == 'n' && VIRTUAL_PORTABLE[0] == 'p';
  }

  predicate IsPortablePath(path: VirtualPath) {
    var location := VirtualLocation(path);
    location.Some? && location.value.PortableObject?
  }

  lemma DevicePathShape(deviceId: string, name: string)
    ensures PortableDevicePath(deviceId, name) == [VIRTUAL_ROOT, VIRTUAL_PORTABLE, EncodedSegment(deviceId, name)]
  {
  }

  lemma HostPathShape(host: string)
    ensures NetworkHostPath(host) == [VIRTUAL_ROOT, VIRTUAL_NETWORK, EncodedSegment(host, host)]
  {
  }

  lemma LastStep(device: VirtualPath, steps: seq<(string, string)>)
    requires steps != []
    ensures var path, last := ObjectPath(device, steps), steps[|steps| - 1];
            path[|path| - 1] == EncodedSegment(last.0, last.1)
  {
    hide EncodedSegment;
  }

  /** Whatever lies below a host is still that host. */
  lemma HostIsFound(host: string, below: VirtualPath)
    ensures VirtualLocation(NetworkHostPath(host) + below) == Some(NetworkHost(host))
  {
    hide SegmentId, EncodedSegment, AreaOf, NetworkHostPath;
    SegmentRoundTrip(host, host);
    HostPathShape(host);
    var path := NetworkHostPath(host) + below;
    assert path[0] == VIRTUAL_ROOT && path[1] == VIRTUAL_NETWORK && path[2] == EncodedSegment(host, host);
    AreasOfPlaces(path, VIRTUAL_NETWORK);
  }

  lemma ObjectPathShape(device: VirtualPath, steps: seq<(string, string)>)
    ensures |ObjectPath(device, steps)| == |device| + |steps|
    ensures forall i :: 0 <= i < |device| ==> ObjectPath(device, steps)[i] == device[i]
  {
    hide ObjectPath;
  }

  lemma PortableLocation(path: VirtualPath, deviceId: string)
    requires |path| >= 3 && path[0] == VIRTUAL_ROOT && path[1] == VIRTUAL_PORTABLE
               && SegmentId(path[2]) == Some(deviceId)
    ensures |path| == 3 ==> VirtualLocation(path) == Some(PortableObject(deviceId, WPD_ROOT_OBJECT_ID))
    ensures |path| > 3 && SegmentId(path[|path| - 1]).Some? ==>
              VirtualLocation(path) == Some(PortableObject(deviceId, SegmentId(path[|path| - 1]).value))
  {
    hide SegmentId, AreaOf;
    AreasOfPlaces(path, VIRTUAL_PORTABLE);
  }

  /** A device path names the root object; a chain of steps names the last one. */
  lemma ObjectIsFound(deviceId: string, name: string, steps: seq<(string, string)>)
    ensures VirtualLocation(ObjectPath(PortableDevicePath(deviceId, name), steps)) ==
              Some(PortableObject(deviceId, if steps == [] then WPD_ROOT_OBJECT_ID else steps[|steps| - 1].0))
  {
    hide *;
    var device := PortableDevicePath(deviceId, name);
    DevicePathShape(deviceId, name);
    SegmentRoundTrip(deviceId, name);
    ObjectPathShape(device, steps);
    var path := ObjectPath(device, steps);
    PortableLocation(path, deviceId);
    if steps != [] {
      var last := steps[|steps| - 1];
      SegmentRoundTrip(last.0, last.1);
      LastStep(device, steps);
    }
  }

  /** An empty id is the one trash id that does not name an item. */
  lemma TrashIdIsFound(id: seq<Byte>)
    ensures VirtualLocation(TrashItemPath(id)) == Some(if id == [] then TrashRoot else TrashItem)
  {
    hide SegmentId, AreaOf;
    AreasOfPlaces(TrashItemPath(id), VIRTUAL_TRASH);
  }

  /** Every object of every device is portable; the trash, the network and real places
      are not. */
  lemma PortableMeans(
    deviceId: string, name: string, steps: seq<(string, string)>, id: seq<Byte>, host: string, other: VirtualPath)
    ensures IsPortablePath(ObjectPath(PortableDevicePath(deviceId, name), steps))
    ensures !IsPortablePath(TrashItemPath(id)) && !IsPortablePath(NetworkHostPath(host) + other)
    ensures |other| < 3 || other[0] != VIRTUAL_ROOT || other[1] != VIRTUAL_PORTABLE ==> !IsPortablePath(other)
  {
    hide ObjectPath, PortableDevicePath, TrashItemPath, NetworkHostPath, SegmentId;
    ObjectIsFound(deviceId, name, steps);
    TrashIdIsFound(id);
    HostIsFound(host, other);
  }

  lemma TrashPathsDiffer(a: seq<Byte>, b: seq<Byte>)
    ensures TrashItemPath(a) == TrashItemPath(b) <==> a == b
  {
    HexBytesRoundTrip(a);
    HexBytesRoundTrip(b);
    if TrashItemPath(a) == TrashItemPath(b) {
      assert HexEncodeBytes(a) == HexEncodeBytes(b) by {
        assert |HexEncodeBytes(a)| > 0 ==> TrashItemPath(a)[2] == HexEncodeBytes(a);
        assert |HexEncodeBytes(b)| > 0 ==> TrashItemPath(b)[2] == HexEncodeBytes(b);
      }
    }
  }

  lemma HostPathsDiffer(a: string, b: string)
    ensures NetworkHostPath(a) == NetworkHostPath(b) <==> a == b
  {
    hide VirtualLocation, NetworkHostPath;
    HostIsFound(a, []);
    HostIsFound(b, []);
    assert NetworkHostPath(a) + [] == NetworkHostPath(a) && NetworkHostPath(b) + [] == NetworkHostPath(b);
  }

  lemma SegmentsDiffer(a: string, captionA: string, b: string, captionB: string)
    ensures EncodedSegment(a, captionA) == EncodedSegment(b, captionB) <==> a == b && captionA == captionB
  {
    hide EncodedSegment, SegmentId;
    SegmentParts(a, captionA);
    SegmentParts(b, captionB);
  }

  lemma SegmentParts(id: string, caption: string)
    ensures SegmentId(EncodedSegment(id, caption)) == Some(id)
    ensures CaptionOf(EncodedSegment(id, caption)) == Some(caption)
  {
    hide SegmentId, HexDecode, IndexOfTilde, SegmentLabel, HexEncode;
    SegmentRoundTrip(id, caption);
    NoTilde(id);
    TildeIsFirst(HexEncode(id), HexEncode(caption));
    HexRoundTrip(caption);
    assert EncodedSegment(id, caption)[|HexEncode(id)| + 1..] == HexEncode(caption);
  }

  lemma NoTilde(text: string)
    ensures '~' !in HexEncode(text)
  {
  }

  /** The caption of a segment, blank or not. */
  function CaptionOf(segment: string): Option<string> {
    var at := IndexOfTilde(segment);
    if at.None? then None else HexDecode(segment[at.value + 1..])
  }

  lemma OneStepDown(device: VirtualPath, steps: seq<(string, string)>)
    requires steps != []
    ensures var last := steps[|steps| - 1];
            ObjectPath(device, steps) == ObjectPath(device, steps[..|steps| - 1]) + [EncodedSegment(last.0, last.1)]
  {
    hide EncodedSegment;
  }

  /** Two chains lead to the same path only if they are the same: same device,
      same name for it, and step by step the same objects and captions. */
  lemma {:induction false} ObjectPathsDiffer(
    deviceA: string, nameA: string, stepsA: seq<(string, string)>,
    deviceB: string, nameB: string, stepsB: seq<(string, string)>)
    ensures ObjectPath(PortableDevicePath(deviceA, nameA), stepsA) ==
              ObjectPath(PortableDevicePath(deviceB, nameB), stepsB)
            <==> deviceA == deviceB && nameA == nameB && stepsA == stepsB
    decreases |stepsA|
  {
    hide EncodedSegment, ObjectPath, PortableDevicePath;
    var a, b := PortableDevicePath(deviceA, nameA), PortableDevicePath(deviceB, nameB);
    if ObjectPath(a, stepsA) == ObjectPath(b, stepsB) {
      DevicePathShape(deviceA, nameA);
      DevicePathShape(deviceB, nameB);
      assert |stepsA| == |stepsB|;
      if stepsA == [] {
        NoSteps(a);
        NoSteps(b);
        SegmentsDiffer(deviceA, nameA, deviceB, nameB);
      } else {
        var n := |stepsA| - 1;
        OneStepDown(a, stepsA);
        OneStepDown(b, stepsB);
        var frontA, frontB := ObjectPath(a, stepsA[..n]), ObjectPath(b, stepsB[..n]);
        assert frontA == ObjectPath(a, stepsA)[..|frontA|] && frontB == ObjectPath(b, stepsB)[..|frontB|];
        ObjectPathsDiffer(deviceA, nameA, stepsA[..n], deviceB, nameB, stepsB[..n]);
        SegmentsDiffer(stepsA[n].0, stepsA[n].1, stepsB[n].0, stepsB[n].1);
        assert stepsA == stepsA[..n] + [stepsA[n]] && stepsB == stepsB[..n] + [stepsB[n]];
      }
    }
  }

  lemma NoSteps(device: VirtualPath)
    ensures ObjectPath(device, []) == device
  {
  }

  /** The three kinds of places never meet. */
  lemma PlacesNeverMeet(id: seq<Byte>, host: string, deviceId: string, name: string, steps: seq<(string, string)>)
    ensures TrashItemPath(id) != NetworkHostPath(host)
    ensures TrashItemPath(id) != ObjectPath(PortableDevicePath(deviceId, name), steps)
    ensures NetworkHostPath(host) != ObjectPath(PortableDevicePath(deviceId, name), steps)
  {
    hide VirtualLocation;
    TrashIdIsFound(id);
    HostIsFound(host, []);
    assert NetworkHostPath(host) + [] == NetworkHostPath(host);
    ObjectIsFound(deviceId, name, steps);
  }
}
