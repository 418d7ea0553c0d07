/**
 * The static settings of backend/config.py that the job core reads: the style
 * catalog, the accepted upload suffixes and the two storage directories.
 */
module Config {

  /** The keys of AVAILABLE_STYLES; names and descriptions are display text only. */
  const AvailableStyles: set<string> := {"vangogh", "picasso", "monet", "kandinsky"}

  /** ALLOWED_EXTENSIONS: compared against the lower-cased final suffix of a file name. */
  const AllowedExtensions: set<string> := {".jpg", ".jpeg", ".png"}

  /** BASE_DIR/uploads and BASE_DIR/outputs; the absolute BASE_DIR prefix depends on the installation. */
  const UploadDir: string := "uploads"
  const OutputDir: string := "outputs"
}
