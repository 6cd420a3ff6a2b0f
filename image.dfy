/**
 * The CDN-aware image component: a relative `src` is prefixed with the CDN URL from the
 * environment, an absolute one is kept, and missing props get their defaults. The rendered
 * markup is reduced to the props handed to the framework's image and the caption.
 */
module Image {
  import opened Wrappers
  import opened Text

  datatype Placeholder = Blur | Empty

  /** The optional props of `CustomImage` (and the rest props of `Image`). */
  datatype ImageOptions = ImageOptions(
    width: Option<int>, height: Option<int>, className: Option<string>, priority: Option<bool>,
    quality: Option<int>, placeholder: Option<Placeholder>, blurDataURL: Option<string>)

  datatype ImageProps = ImageProps(src: string, alt: string, options: ImageOptions)

  /** The props passed on to the framework's image. */
  datatype NextImageProps = NextImageProps(
    src: string, alt: string, width: int, height: int, priority: bool, quality: int,
    placeholder: Placeholder, blurDataURL: Option<string>)

  datatype Rendered = Rendered(image: NextImageProps, caption: Option<string>)

  /** `process.env.NEXT_PUBLIC_CDN_URL || ""` */
  function CdnPrefix(env: Option<string>): (r: string)
    ensures env.Some? ==> r == env.value
    ensures env.None? ==> r == ""
  {
    env.GetOr("")
  }

  predicate IsAbsolute(src: string) {
    StartsWith(src, "http://") || StartsWith(src, "https://")
  }

  /** The `imageSrc` expression. */
  function ImageSrc(src: string, cdnEnv: Option<string>): (r: string)
    ensures IsAbsolute(src) ==> r == src
    ensures !IsAbsolute(src) ==> r == CdnPrefix(cdnEnv) + src
  {
    if IsAbsolute(src) then src else CdnPrefix(cdnEnv) + src
  }

  /** A prefix of `s` is a prefix of `s + t`. */
  lemma StartsWithAppend(s: string, t: string, p: string)
    requires StartsWith(s, p)
    ensures StartsWith(s + t, p)
  {
    assert (s + t)[..|p|] == s[..|p|];
  }

  /**
   * With no CDN prefix, or an absolute one, resolving a resolved source changes nothing; and
   * a resolved source is then absolute exactly when the prefix or the source is.
   */
  lemma ImageSrcIdempotent(src: string, cdnEnv: Option<string>)
    requires CdnPrefix(cdnEnv) == "" || IsAbsolute(CdnPrefix(cdnEnv))
    ensures ImageSrc(ImageSrc(src, cdnEnv), cdnEnv) == ImageSrc(src, cdnEnv)
    ensures IsAbsolute(ImageSrc(src, cdnEnv)) <==> IsAbsolute(CdnPrefix(cdnEnv)) || IsAbsolute(src)
  {
    var p := CdnPrefix(cdnEnv);
    if !IsAbsolute(src) && p != "" {
      if StartsWith(p, "http://") {
        StartsWithAppend(p, src, "http://");
      } else {
        StartsWithAppend(p, src, "https://");
      }
    } else if !IsAbsolute(src) {
      assert p + src == src;
    }
  }

  /** `width || 800`, `height || 400`: an absent or zero size gets the default. */
  function OrDefault(v: Option<int>, default: int): (r: int)
    ensures v.None? || v.value == 0 ==> r == default
    ensures v.Some? && v.value != 0 ==> r == v.value
  {
    if v.Some? && v.value != 0 then v.value else default
  }

  /** `CustomImage(props)` */
  function CustomImage(props: ImageProps, cdnEnv: Option<string>): (r: Rendered)
    ensures r.image.src == ImageSrc(props.src, cdnEnv) && r.image.alt == props.alt
    ensures r.image.width != 0 && r.image.height != 0
    ensures props.options.width.None? || props.options.width == Some(0) ==> r.image.width == 800
    ensures props.options.height.None? || props.options.height == Some(0) ==> r.image.height == 400
    ensures props.options.priority.None? ==> !r.image.priority
    ensures props.options.quality.None? ==> r.image.quality == 75
    ensures props.options.placeholder.None? ==> r.image.placeholder == Empty
    ensures r.caption.Some? <==> props.alt != ""
    ensures r.caption.Some? ==> r.caption.value == props.alt
  {
    var o := props.options;
    var image := NextImageProps(
      ImageSrc(props.src, cdnEnv), props.alt, OrDefault(o.width, 800), OrDefault(o.height, 400),
      o.priority.GetOr(false), o.quality.GetOr(75), o.placeholder.GetOr(Empty), o.blurDataURL);
    Rendered(image, if props.alt != "" then Some(props.alt) else None)
  }

  /** Sizes and flags given explicitly, other than a zero size, reach the framework's image. */
  lemma ExplicitPropsKept(props: ImageProps, cdnEnv: Option<string>)
    ensures var o := props.options; var img := CustomImage(props, cdnEnv).image;
      && (o.width.Some? && o.width.value != 0 ==> img.width == o.width.value)
      && (o.height.Some? && o.height.value != 0 ==> img.height == o.height.value)
      && (o.priority.Some? ==> img.priority == o.priority.value)
      && (o.quality.Some? ==> img.quality == o.quality.value)
      && (o.placeholder.Some? ==> img.placeholder == o.placeholder.value)
      && img.blurDataURL == o.blurDataURL
  {
  }

  /** `Image({ src, alt, ...props })`, the MDX component: forwards everything to `CustomImage`. */
  function Image(src: string, alt: string, rest: ImageOptions, cdnEnv: Option<string>): (r: Rendered)
    ensures r.image.alt == alt && r.image.src == ImageSrc(src, cdnEnv)
    ensures r == CustomImage(ImageProps(src, alt, rest), cdnEnv)
  {
    CustomImage(ImageProps(src, alt, rest), cdnEnv)
  }
}
