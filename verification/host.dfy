/** The WordPress and PHP library functions the plugin calls but does not define.
    Each is an uninterpreted total function: the model states what the plugin
    does with their results, never what they compute. */
module Host {
  import opened Wrappers
  import Civil

  datatype Host = Host(
    /** `sanitize_text_field` */
    sanitizeText: string -> string,
    /** `sanitize_textarea_field` */
    sanitizeTextarea: string -> string,
    /** `esc_url_raw` */
    escUrlRaw: string -> string,
    /** `sanitize_email` */
    sanitizeEmail: string -> string,
    /** `is_email` */
    isEmail: string -> bool,
    /** `intval` on a request string */
    intval: string -> int,
    /** `filter_var($ip, FILTER_VALIDATE_IP, FILTER_FLAG_NO_PRIV_RANGE | FILTER_FLAG_NO_RES_RANGE)` */
    isPublicIp: string -> bool,
    /** `wp_strip_all_tags` */
    stripTags: string -> string,
    /** `new DateTime($s)` / `strtotime($s)` read as a calendar day; None where PHP fails */
    parseDate: string -> Option<Civil.ValidDate>,
    /** `strtotime($s)` as a Unix timestamp, relative phrases such as " +2 hours" read
        from the request's clock; None where PHP returns false */
    strtotime: string -> Option<int>,
    /** `date('Ymd\THis\Z', $t)` in the UTC zone WordPress sets */
    formatUtc: int -> string
  )

  /** `absint($s)`: the absolute value of `intval($s)`. */
  function Absint(h: Host, s: string): nat {
    var i := h.intval(s);
    if i < 0 then -i else i
  }

  /** `absint($data[$key] ?? $default)` with an integer default. */
  function AbsintOr(h: Host, data: map<string, string>, key: string, default: nat): nat {
    if key in data then Absint(h, data[key]) else default
  }

  /** `date('Y-m-d', strtotime($s))` style parsing: an unparsable string reads as
      `false`, which `date` formats as the epoch, 1970-01-01. */
  function DateOrEpoch(h: Host, s: string): (d: Civil.Date)
    ensures Civil.Valid(d)
  {
    h.parseDate(s).GetOr(Civil.Date(1970, 1, 1))
  }
}
