/** How the client pages turn a stored path ("/uploads/...") into a URL: a path that
    already starts with "http" is used as is, anything else is put behind the API host;
    an empty image path gives the page's placeholder picture. */
module Urls {
  import opened Values

  const ApiHost: string := "http://localhost:3000"

  /** The host of the two placeholder pictures. */
  const ImageHost: string := "https://images.unsplash.com"

  const BookPlaceholder: string := ImageHost + "/photo-1544716278-ca5e3f4abd8c?w=400&h=600&fit=crop"
  const AuthorPlaceholder: string := ImageHost + "/photo-1472099645785-5658abf4ff4e?w=400&h=400&fit=crop&crop=face"

  /** A path already starting with "http" is kept; any other is put behind the API host. */
  function Resolve(path: string): (url: string)
    ensures StartsWith(url, "http")
    ensures StartsWith(path, "http") ==> url == path
    ensures !StartsWith(path, "http") ==> url == ApiHost + path && EndsWith(url, path)
  {
    if StartsWith(path, "http") then path
    else
      var url := ApiHost + path;
      assert url[..4] == "http";
      assert url[|url| - |path|..] == path;
      url
  }

  /** Resolving a URL a second time changes nothing. */
  lemma ResolveIdempotent(path: string)
    ensures Resolve(Resolve(path)) == Resolve(path)
  {
  }

  /** A stored image shown by the Ebook and AuthorList pages: an empty or missing path
      gives `placeholder`. */
  function ImageUrl(stored: Option<string>, placeholder: string): (url: string)
    ensures !StrTruthy(stored) ==> url == placeholder
    ensures StrTruthy(stored) ==> url == Resolve(stored.value)
  {
    if StrTruthy(stored) then Resolve(stored.value) else placeholder
  }

  /** Every image URL the pages show is absolute: either a resolved path or one of the
      two placeholders. */
  lemma ImageUrlAbsolute(stored: Option<string>)
    ensures StartsWith(ImageUrl(stored, BookPlaceholder), "http")
    ensures StartsWith(ImageUrl(stored, AuthorPlaceholder), "http")
  {
    assert ImageHost[..4] == "http";
    assert BookPlaceholder[..4] == ImageHost[..4];
    assert AuthorPlaceholder[..4] == ImageHost[..4];
  }

  /** The search modal's variant: no picture (`null`) for a missing path. */
  function ImageUrlOrNull(stored: Option<string>): (url: Option<string>)
    ensures url.None? <==> !StrTruthy(stored)
    ensures url.Some? ==> url.value == Resolve(stored.value)
  {
    if StrTruthy(stored) then Some(Resolve(stored.value)) else None
  }

  /** Where both variants show a picture, it is the same URL. */
  lemma ImageVariantsAgree(stored: Option<string>, placeholder: string)
    requires StrTruthy(stored)
    ensures ImageUrlOrNull(stored) == Some(ImageUrl(stored, placeholder))
  {
  }
}
