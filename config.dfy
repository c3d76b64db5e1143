/** The configuration constants the controller's logic reads (config.py). */
module Config {
  /** Seconds a relay stays energised when an event gives no `belllength`. */
  const RELAY_ON_DURATION := 1
  const DISPLAY_WIDTH := 240
  const DISPLAY_HEIGHT := 240
  /** Seconds without activity after which the backlight is switched off. */
  const SCREEN_OFF_TIMEOUT := 300
  /** Seconds between two steps of the burn-in pixel shift. */
  const PIXEL_SHIFT_INTERVAL_S := 60
}
