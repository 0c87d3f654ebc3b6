/**
 * The advertisement-driven dimmer of abc.py, `AdvertisementHandler`: it scans
 * for advertisements carrying a fixed tag, pins the remote's MAC address in a
 * file, debounces presses with the tick counter and steps a brightness index
 * up or down over the current profile's levels. receiver.py carries the same
 * class; the two differ only in `load` (see module Receiver).
 *
 * The flash file system is a `FileStore` object holding each file's whole
 * content; the clock reading `utime.ticks_ms()` is the parameter `now`.
 */
module Advertisement {
  import opened Wrappers
  import opened AdPayload
  import opened Ticks
  import opened SettingsFile

  /** The tag a remote's command advertisement carries at offsets 2 to 5. */
  const CommandTag: seq<byte> := [0xCA, 0xFE, 0x12, 0x34]
  /** A command advertisement is exactly this long; its last octet is the command. */
  const CommandLength := 7
  /** The command octet that steps up; every other value steps down. */
  const UpCommand: byte := 2

  const RemoteFile: string := "stored_remote"
  const DefaultCooldownMs := 200

  /** A scan result as `_IRQ_SCAN_RESULT` delivers it: `(addr_type, addr, adv_type, rssi, adv_data)`. */
  datatype Advert = Advert(addrType: int, mac: seq<byte>, advType: int, rssi: int, data: seq<byte>)

  /** A command advertisement: the tag CA FE 12 34 at offsets 2 to 5, and seven octets in all. */
  predicate IsCommand(data: seq<byte>) {
    |data| == CommandLength && data[2..6] == CommandTag
  }

  /** The flash file system: the whole content of every text file and every binary file. */
  class FileStore {
    var text: map<string, string>
    var binary: map<string, seq<byte>>

    constructor (text: map<string, string>, binary: map<string, seq<byte>>)
      ensures this.text == text && this.binary == binary
    {
      this.text := text;
      this.binary := binary;
    }
  }

  /** Opening a text file for reading: its content, or `None` when it is missing. */
  function ReadText(files: map<string, string>, name: string): Option<string> {
    if name in files then Some(files[name]) else None
  }

  /** What `f.read()` of a binary file gives, or `None` when opening it fails. */
  function ReadBinary(files: map<string, seq<byte>>, name: string): Option<seq<byte>> {
    if name in files then Some(files[name]) else None
  }

  // ---------------------------------------------------------------------------
  // The specification of the stepping and of `handle_event`

  /** `increase_setting`: one step up, but not past the last level. */
  function StepUp(index: int, count: int): int {
    if count - 1 < index + 1 then count - 1 else index + 1
  }

  /** `decrease_setting`: one step down, but not below 0. */
  function StepDown(index: int): int {
    if index - 1 < 0 then 0 else index - 1
  }

  /** What `handle_event` does with one advertisement. */
  datatype Decision =
    | Ignore         // not a command, or from a remote other than the pinned one
    | Pin(mac: seq<byte>)   // no remote pinned: the sender's MAC goes to the file
    | TooSoon        // the pinned remote, inside the cooldown
    | Step(up: bool) // the pinned remote, admitted: step up or down

  /** The decision `handle_event` takes, given the pinned MAC and the debounce state. */
  function Decide(remote: Option<seq<byte>>, lastMessage: int, cooldownMs: int, adv: Advert, now: int, period: int): Decision
    requires ValidPeriod(period)
  {
    if !IsCommand(adv.data) then Ignore
    else if remote.None? then Pin(adv.mac)
    else if remote.value != adv.mac then Ignore
    else if TicksDiff(now, lastMessage, period) < cooldownMs then TooSoon
    else Step(adv.data[6] == UpCommand)
  }

  // ---------------------------------------------------------------------------
  // The handler object

  class AdvertisementHandler {
    const fs: FileStore
    const settingsConfig: Config
    const currSetting: string
    const remoteFile: string
    const cooldownMs: int
    /** Read once at construction; no method assigns it (abc.py:76 assigns a local). */
    const remoteMacAddr: Option<seq<byte>>
    var settingIndex: int
    var lastMessage: int

    /** `__init__`: index and debounce timestamp start at 0; the pinned MAC comes from the file, if any. */
    constructor (fs: FileStore, currSetting: string, settingsConfig: Config, cooldownMs: int)
      ensures this.fs == fs && this.currSetting == currSetting && this.settingsConfig == settingsConfig
      ensures this.cooldownMs == cooldownMs && remoteFile == RemoteFile
      ensures remoteMacAddr == ReadBinary(fs.binary, RemoteFile)
      ensures settingIndex == 0 && lastMessage == 0
    {
      this.fs := fs;
      this.settingsConfig := settingsConfig;
      this.currSetting := currSetting;
      this.settingIndex := 0;
      this.remoteFile := RemoteFile;
      this.cooldownMs := cooldownMs;
      this.lastMessage := 0;
      this.remoteMacAddr := ReadBinary(fs.binary, RemoteFile);
    }

    /** The number of levels of the current profile, or `None` where the lookup raises `KeyError`. */
    function LevelCount(): Option<nat> {
      if currSetting in settingsConfig then Some(|settingsConfig[currSetting]|) else None
    }

    /** `increase_setting`; `ok` is false where `settings_config[curr_setting]` raises `KeyError`. */
    method IncreaseSetting() returns (ok: bool)
      modifies this`settingIndex
      ensures ok == LevelCount().Some?
      ensures settingIndex == if ok then StepUp(old(settingIndex), LevelCount().value) else old(settingIndex)
    {
      if currSetting !in settingsConfig {
        return false;
      }
      var count := |settingsConfig[currSetting]|;
      settingIndex := if count - 1 < settingIndex + 1 then count - 1 else settingIndex + 1;
      return true;
    }

    /** `decrease_setting`. */
    method DecreaseSetting()
      modifies this`settingIndex
      ensures settingIndex == StepDown(old(settingIndex))
    {
      settingIndex := if settingIndex - 1 < 0 then 0 else settingIndex - 1;
    }

    /**
     * `handle_event` for one advertisement received at tick `now`; `ok` is
     * false where the step up raises `KeyError` (the timestamp is updated by then).
     */
    method HandleEvent(adv: Advert, now: int, period: int) returns (ok: bool)
      requires ValidPeriod(period)
      modifies this, fs`binary
      ensures Handled(this, adv, now, period, ok)
    {
      ok := true;
      var data := adv.data;
      if |data| >= 6 && data[2..6] == CommandTag && |data| == CommandLength {
        if remoteMacAddr.None? {
          var mac := adv.mac;
          fs.binary := fs.binary[remoteFile := mac];
        } else if remoteMacAddr.value == adv.mac {
          if TicksDiff(now, lastMessage, period) >= cooldownMs {
            lastMessage := now;
            if data[6] == UpCommand {
              ok := IncreaseSetting();
            } else {
              DecreaseSetting();
            }
          }
        }
      }
    }
  }

  /**
   * The state `handle_event` leaves behind for the decision `Decide` takes:
   * a pinned MAC goes to the remote file, an admitted press moves the
   * timestamp to `now` and steps the index, and nothing else changes. `ok` is
   * false where the step up raises `KeyError`.
   */
  twostate predicate Handled(h: AdvertisementHandler, adv: Advert, now: int, period: int, ok: bool)
    requires ValidPeriod(period)
    reads h, h.fs
  {
    var d := Decide(h.remoteMacAddr, old(h.lastMessage), h.cooldownMs, adv, now, period);
    && ok == !(d == Step(true) && h.LevelCount().None?)
    && h.fs.binary == (if d.Pin? then old(h.fs.binary)[h.remoteFile := d.mac] else old(h.fs.binary))
    && h.lastMessage == (if d.Step? then now else old(h.lastMessage))
    && h.settingIndex == match d
         case Step(up) =>
           if !up then StepDown(old(h.settingIndex))
           else if h.LevelCount().Some? then StepUp(old(h.settingIndex), h.LevelCount().value)
           else old(h.settingIndex)
         case _ => old(h.settingIndex)
  }

  /**
   * `AdvertisementHandler.load` of abc.py: reads the name line, stripped, and
   * the JSON mapping; if either fails, builds the default handler and writes
   * the bootstrap file.
   */
  method Load(fs: FileStore, settingsFile: string, encode: Config -> string, decode: string -> Option<Config>)
    returns (h: AdvertisementHandler)
    modifies fs`text
    ensures var loaded := LoadSettings(old(ReadText(fs.text, settingsFile)), true, encode, decode);
      && fresh(h) && h.fs == fs
      && h.currSetting == loaded.settings.currSetting && h.settingsConfig == loaded.settings.config
      && fs.text == old(fs.text)[settingsFile := loaded.file]
    ensures h.settingIndex == 0 && h.lastMessage == 0 && h.cooldownMs == DefaultCooldownMs
    ensures h.remoteMacAddr == ReadBinary(fs.binary, RemoteFile)
  {
    var content := ReadText(fs.text, settingsFile);
    var read := ReadSettings(content, decode);
    if read.Some? {
      var (line, config) := read.value;
      h := new AdvertisementHandler(fs, RStrip(line), config, DefaultCooldownMs);
      assert fs.text == fs.text[settingsFile := content.value];
    } else {
      h := new AdvertisementHandler(fs, DefaultSetting, DefaultConfig, DefaultCooldownMs);
      fs.text := fs.text[settingsFile := h.currSetting + "\n" + encode(h.settingsConfig)];
    }
  }

  // ---------------------------------------------------------------------------
  // Properties of the stepping

  /** From a valid index, a step up stays valid: it is a no-op at the top and moves by one elsewhere. */
  lemma StepUpClamped(index: int, count: int)
    requires 0 <= index < count
    ensures 0 <= StepUp(index, count) < count
    ensures index == count - 1 ==> StepUp(index, count) == index
    ensures index < count - 1 ==> StepUp(index, count) == index + 1
  {
  }

  /** From a valid index, a step down stays valid: it is a no-op at 0 and moves by one elsewhere. */
  lemma StepDownClamped(index: int, count: int)
    requires 0 <= index < count
    ensures 0 <= StepDown(index) < count
    ensures index == 0 ==> StepDown(index) == 0
    ensures index > 0 ==> StepDown(index) == index - 1
  {
  }

  /** The index after a run of admitted presses, `true` for up. */
  function Steps(index: int, count: int, presses: seq<bool>): int
    decreases |presses|
  {
    if presses == [] then index
    else Steps(if presses[0] then StepUp(index, count) else StepDown(index), count, presses[1..])
  }

  /** No run of presses takes a valid index out of `[0, count - 1]`. */
  lemma {:induction false} StepsStayInRange(index: int, count: int, presses: seq<bool>)
    requires 0 <= index < count
    ensures 0 <= Steps(index, count, presses) < count
    decreases |presses|
  {
    if presses != [] {
      StepsStayInRange(if presses[0] then StepUp(index, count) else StepDown(index), count, presses[1..]);
    }
  }

  /** `k` presses up reach `index + k`, clamped at the top; repeating past the top changes nothing. */
  lemma {:induction false} RepeatedUp(index: int, count: int, presses: seq<bool>)
    requires 0 <= index < count
    requires forall i :: 0 <= i < |presses| ==> presses[i]
    ensures Steps(index, count, presses) == if index + |presses| < count then index + |presses| else count - 1
    decreases |presses|
  {
    if presses != [] {
      RepeatedUp(StepUp(index, count), count, presses[1..]);
    }
  }

  /** `k` presses down reach `index - k`, clamped at 0. */
  lemma {:induction false} RepeatedDown(index: int, count: int, presses: seq<bool>)
    requires 0 <= index < count
    requires forall i :: 0 <= i < |presses| ==> !presses[i]
    ensures Steps(index, count, presses) == if index - |presses| > 0 then index - |presses| else 0
    decreases |presses|
  {
    if presses != [] {
      RepeatedDown(StepDown(index), count, presses[1..]);
    }
  }

  // ---------------------------------------------------------------------------
  // Properties of `handle_event`

  /** Without the tag at offsets 2 to 5 and a total length of 7, an advertisement is ignored. */
  lemma UntaggedIgnored(remote: Option<seq<byte>>, lastMessage: int, cooldownMs: int, adv: Advert, now: int, period: int)
    requires ValidPeriod(period)
    requires !IsCommand(adv.data)
    ensures Decide(remote, lastMessage, cooldownMs, adv, now, period) == Ignore
  {
  }

  /** A command from a MAC other than the pinned one is ignored. */
  lemma ForeignSenderIgnored(remote: Option<seq<byte>>, lastMessage: int, cooldownMs: int, adv: Advert, now: int, period: int)
    requires ValidPeriod(period)
    requires remote.Some? && remote.value != adv.mac
    ensures Decide(remote, lastMessage, cooldownMs, adv, now, period) == Ignore
  {
  }

  /**
   * With no MAC pinned, a command only writes the sender's MAC to the file:
   * it never steps, whatever the timing. The pinned MAC in memory stays `None`,
   * so this holds for every later command of the same session too.
   */
  lemma UnpairedOnlyPins(lastMessage: int, cooldownMs: int, adv: Advert, now: int, period: int)
    requires ValidPeriod(period)
    ensures var d := Decide(None, lastMessage, cooldownMs, adv, now, period);
      (d == Pin(adv.mac) <==> IsCommand(adv.data)) && (d == Ignore <==> !IsCommand(adv.data))
  {
  }

  /**
   * A command from the pinned MAC is admitted exactly when `ticks_diff(now,
   * last_message) >= cooldown_ms`, and then steps up exactly when its last
   * octet is 2.
   */
  lemma PinnedSenderDebounced(lastMessage: int, cooldownMs: int, adv: Advert, now: int, period: int)
    requires ValidPeriod(period)
    requires IsCommand(adv.data)
    ensures var d := Decide(Some(adv.mac), lastMessage, cooldownMs, adv, now, period);
      && (d.Step? <==> TicksDiff(now, lastMessage, period) >= cooldownMs)
      && (d == TooSoon <==> TicksDiff(now, lastMessage, period) < cooldownMs)
      && (d.Step? ==> (d.up <==> adv.data[6] == UpCommand))
  {
  }

  /**
   * `last_message` starts at 0, so the first press is not always admitted:
   * one within the first `cooldown_ms` ticks is dropped, and so is one from
   * half a tick period on, until the counter wraps.
   */
  lemma FirstPressNotAlwaysAdmitted(cooldownMs: int, adv: Advert, now: int, period: int)
    requires ValidPeriod(period) && 0 <= cooldownMs <= period / 2
    requires IsCommand(adv.data)
    requires 0 <= now < cooldownMs || period / 2 <= now < period
    ensures Decide(Some(adv.mac), 0, cooldownMs, adv, now, period) == TooSoon
  {
    CooldownWindow(now, 0, cooldownMs, period);
    ModUniqueZero(now, period);
  }

  lemma ModUniqueZero(now: int, period: int)
    requires ValidPeriod(period) && 0 <= now < period
    ensures Elapsed(now, 0, period) == now
  {
    ModUnique(now, period, 0, now);
  }

  /**
   * With readings in range, a press from the pinned remote is admitted exactly
   * when the time since the last admitted one, modulo the period, is at least
   * the cooldown and below half a period: after a pause of half a period or
   * more the remote is ignored until the counter catches up.
   */
  lemma AdmittedWindow(lastMessage: int, cooldownMs: int, adv: Advert, now: int, period: int)
    requires ValidPeriod(period) && 0 <= cooldownMs <= period / 2
    requires 0 <= now < period && 0 <= lastMessage < period
    requires IsCommand(adv.data)
    ensures Decide(Some(adv.mac), lastMessage, cooldownMs, adv, now, period).Step?
        <==> cooldownMs <= Elapsed(now, lastMessage, period) < period / 2
  {
    CooldownWindow(now, lastMessage, cooldownMs, period);
  }
}
