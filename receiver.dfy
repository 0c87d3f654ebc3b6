/**
 * receiver.py: the same `AdvertisementHandler` as abc.py (modelled by
 * `Advertisement.AdvertisementHandler`), except that its `load` keeps the line
 * feed of the profile-name line, and an IRQ dispatcher that passes scan
 * results to it.
 */
module Receiver {
  import opened Wrappers
  import opened Ticks
  import opened SettingsFile
  import opened Advertisement

  const IrqScanResult := 5

  /**
   * `AdvertisementHandler.load` of receiver.py: as in abc.py, but the profile
   * name is the first line as `readline` returns it, line feed included.
   */
  method Load(fs: FileStore, settingsFile: string, encode: Config -> string, decode: string -> Option<Config>)
    returns (h: AdvertisementHandler)
    modifies fs`text
    ensures var loaded := LoadSettings(old(ReadText(fs.text, settingsFile)), false, encode, decode);
      && fresh(h) && h.fs == fs
      && h.currSetting == loaded.settings.currSetting && h.settingsConfig == loaded.settings.config
      && fs.text == old(fs.text)[settingsFile := loaded.file]
    ensures h.settingIndex == 0 && h.lastMessage == 0 && h.cooldownMs == DefaultCooldownMs
    ensures h.remoteMacAddr == ReadBinary(fs.binary, RemoteFile)
  {
    var content := ReadText(fs.text, settingsFile);
    var read := ReadSettings(content, decode);
    if read.Some? {
      var (line, config) := read.value;
      h := new AdvertisementHandler(fs, line, config, DefaultCooldownMs);
      assert fs.text == fs.text[settingsFile := content.value];
    } else {
      h := new AdvertisementHandler(fs, DefaultSetting, DefaultConfig, DefaultCooldownMs);
      fs.text := fs.text[settingsFile := h.currSetting + "\n" + encode(h.settingsConfig)];
    }
  }

  /**
   * `bt_irq`: a scan result goes to the advertisement handler. A GATT write
   * goes to receiver.py's `CharacteristicHandler`, which only reads the value
   * and prints it, so it changes nothing here; other events are dropped.
   */
  method BtIrq(h: AdvertisementHandler, event: int, adv: Advert, now: int, period: int) returns (ok: bool)
    requires ValidPeriod(period)
    modifies h, h.fs`binary
    ensures event == IrqScanResult ==> Handled(h, adv, now, period, ok)
    ensures event != IrqScanResult ==> ok && unchanged(h, h.fs)
  {
    ok := true;
    if event == IrqScanResult {
      ok := h.HandleEvent(adv, now, period);
    }
  }
}
