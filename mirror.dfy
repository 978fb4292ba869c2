/** The closed set of Contents-file variants a Debian mirror publishes, and the
    names derived from them: the cache and request file name
    `Contents-<value>.gz` and the request URL `<mirror>/<file name>`. */
module Mirror {

  import opened Wrappers

  /** The mirror used when the caller names none; note its trailing slash. */
  const DEFAULT_MIRROR: string := "http://ftp.uk.debian.org/debian/dists/stable/main/"

  /** One member per supported variant; `Value` gives the text the mirror uses. */
  datatype Arch =
    | All | Amd64 | Arm64 | Armel | Armhf | I386 | Mips64el | Mipsel | Ppc64el | S390x
    | Source
    | UdebAll | UdebAmd64 | UdebArm64 | UdebArmel | UdebArmhf | UdebI386
    | UdebMips64el | UdebMipsel | UdebPpc64el | UdebS390

  function Value(a: Arch): string
  {
    match a
    case All => "all"
    case Amd64 => "amd64"
    case Arm64 => "arm64"
    case Armel => "armel"
    case Armhf => "armhf"
    case I386 => "i386"
    case Mips64el => "mips64el"
    case Mipsel => "mipsel"
    case Ppc64el => "ppc64el"
    case S390x => "s390x"
    case Source => "source"
    case UdebAll => "udeb-all"
    case UdebAmd64 => "udeb-amd64"
    case UdebArm64 => "udeb-arm64"
    case UdebArmel => "udeb-armel"
    case UdebArmhf => "udeb-armhf"
    case UdebI386 => "udeb-i386"
    case UdebMips64el => "udeb-mips64el"
    case UdebMipsel => "udeb-mipsel"
    case UdebPpc64el => "udeb-ppc64el"
    case UdebS390 => "udeb-s390x"
  }

  /** `Arch(s)`: the member whose value is `s`, or nothing, which is how the
      command line rejects an unknown selector before any I/O. */
  function FromValue(s: string): (r: Option<Arch>)
    ensures r.Some? ==> Value(r.value) == s
  {
    if s == "all" then Some(All)
    else if s == "amd64" then Some(Amd64)
    else if s == "arm64" then Some(Arm64)
    else if s == "armel" then Some(Armel)
    else if s == "armhf" then Some(Armhf)
    else if s == "i386" then Some(I386)
    else if s == "mips64el" then Some(Mips64el)
    else if s == "mipsel" then Some(Mipsel)
    else if s == "ppc64el" then Some(Ppc64el)
    else if s == "s390x" then Some(S390x)
    else if s == "source" then Some(Source)
    else if s == "udeb-all" then Some(UdebAll)
    else if s == "udeb-amd64" then Some(UdebAmd64)
    else if s == "udeb-arm64" then Some(UdebArm64)
    else if s == "udeb-armel" then Some(UdebArmel)
    else if s == "udeb-armhf" then Some(UdebArmhf)
    else if s == "udeb-i386" then Some(UdebI386)
    else if s == "udeb-mips64el" then Some(UdebMips64el)
    else if s == "udeb-mipsel" then Some(UdebMipsel)
    else if s == "udeb-ppc64el" then Some(UdebPpc64el)
    else if s == "udeb-s390x" then Some(UdebS390)
    else None
  }

  /** Every member is found again from its value, so no two members share one. */
  lemma FromValueRoundTrip(a: Arch)
    ensures FromValue(Value(a)) == Some(a)
  {
  }

  /** `f"Contents-{arch.value}.gz"`. */
  function ContentsFileName(a: Arch): string
  {
    "Contents-" + Value(a) + ".gz"
  }

  /** Different variants never share a cache file or a request path. */
  lemma ContentsFileNameInjective(a: Arch, b: Arch)
    requires ContentsFileName(a) == ContentsFileName(b)
    ensures a == b
  {
    var na, nb := ContentsFileName(a), ContentsFileName(b);
    assert Value(a) == na[9..|na| - 3];
    assert Value(b) == nb[9..|nb| - 3];
    FromValueRoundTrip(a);
    FromValueRoundTrip(b);
  }

  /** `f"{mirror}/{contents_file}"`. */
  function Url(mirror: string, a: Arch): string
  {
    mirror + "/" + ContentsFileName(a)
  }

  /** The URL is the mirror, one slash, then the file name, whatever the mirror
      ends with; with the default mirror, which ends in `/`, that makes `//`. */
  lemma UrlSpec(mirror: string, a: Arch)
    ensures Url(mirror, a)[..|mirror|] == mirror
    ensures Url(mirror, a)[|mirror|] == '/'
    ensures Url(mirror, a)[|mirror| + 1..] == ContentsFileName(a)
    ensures mirror != [] && mirror[|mirror| - 1] == '/' ==>
              Url(mirror, a)[|mirror| - 1..|mirror| + 1] == "//"
  {
    var u := Url(mirror, a);
    assert u == mirror + ("/" + ContentsFileName(a));
  }

  /** The default request URL for a variant. */
  lemma DefaultUrl(a: Arch)
    ensures Url(DEFAULT_MIRROR, a) ==
              "http://ftp.uk.debian.org/debian/dists/stable/main//Contents-" + Value(a) + ".gz"
  {
  }
}
