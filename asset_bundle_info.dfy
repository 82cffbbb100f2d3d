/**
 * The per-bundle record of the build-produced info collection, and the
 * helper capability through which the scheduler resolves names and URLs.
 */
module BundleInfo {
  import opened Common
  import opened ManifestParser

  /** One entry of the info collection: a bundle, its manifest data and its byte size. */
  datatype Info = Info(assetBundleName: string, manifestInfo: ManifestInfo, size: nat)

  /**
   * The client-supplied helper: whether a path belongs to a bundle, the
   * bundle that owns an asset (possibly null or empty) and the URL of a bundle.
   */
  datatype Helper = Helper(
    isAssetBundle: string -> bool,
    getAssetBundleName: string -> Option<string>,
    getUrl: string -> string)
}
